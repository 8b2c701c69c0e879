/**
 * The top-level App component (15-project/src/App.tsx): it owns the post
 * collection, seeds it with two posts and removes a post when one of its cards
 * asks for that through `onDelete`.
 */
module PostApp {
  import opened Wrappers
  import opened Posts
  import PostCards

  /** The initial `posts` state. */
  function SeedPosts(): (seed: seq<Post>)
  {
    [ Post(1, "Post 1", "Это пример контента для карточки поста."),
      Post(2, "Post 2", "Это второй пример карточки поста с немного другим содержанием.") ]
  }

  lemma SeedPostsShape()
    ensures |SeedPosts()| == 2
    ensures SeedPosts()[0].id == 1 && SeedPosts()[1].id == 2
    ensures UniqueIds(SeedPosts())
  {
  }

  /** Deleting post 2 from the seed leaves post 1 alone; deleting 99 changes nothing. */
  lemma SeedDeletion()
    ensures RemovePost(SeedPosts(), 2) == [SeedPosts()[0]]
    ensures RemovePost(SeedPosts(), 99) == SeedPosts()
  {
    var s := SeedPosts();
    assert s[1..][1..] == [];
    RemovePostAbsent(s, 99);
  }

  class App {
    var posts: seq<Post>

    constructor ()
      ensures posts == SeedPosts()
    {
      posts := SeedPosts();
    }

    /** `handleDeletePost`: replaces the collection by its filter on `id`. */
    method HandleDeletePost(id: int)
      modifies this
      ensures posts == RemovePost(old(posts), id)
      ensures !HasId(posts, id)
      ensures forall p :: p in posts <==> p in old(posts) && p.id != id
    {
      posts := RemovePost(posts, id);
    }
  }

  /**
   * The card App renders for post `p`: it gets the post's id, title and content
   * as props and starts from its initial state with that content.
   */
  method MountCard(p: Post) returns (card: PostCards.PostCard)
    ensures fresh(card)
    ensures card.id == p.id && card.title == p.title
    ensures card.State() == PostCards.InitialState(p.content)
    ensures card.Valid() && !card.listenerAttached
  {
    card := new PostCards.PostCard(p.id, p.title, p.content);
  }

  /**
   * A delete chosen from `card`'s menu: the card's `handleDelete` runs with the
   * confirmation answer, and the `onDelete` it may call is App's `handleDeletePost`.
   * Only the collection changes; the card's state and every other post's fields
   * are untouched, and nothing the card edited flows back into `posts`.
   */
  method DeleteFromCard(app: App, card: PostCards.PostCard, confirmed: bool)
    modifies app
    ensures app.posts == if confirmed then RemovePost(old(app.posts), card.id) else old(app.posts)
  {
    var request := card.HandleDelete(confirmed);
    if request.Some? {
      app.HandleDeletePost(request.value);
    }
  }
}
