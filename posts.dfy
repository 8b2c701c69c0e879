/**
 * The post collection that App owns, and its deletion by id
 * (15-project/src/App.tsx). Deletion is a filter: every post whose id equals
 * the deleted one is dropped, the others stay in their order.
 */
module Posts {

  /** One post. TypeScript `number` ids are modelled as mathematical integers. */
  datatype Post = Post(id: int, title: string, content: string)

  /** Some post of `s` carries `id`. */
  predicate HasId(s: seq<Post>, id: int)
  {
    exists i :: 0 <= i < |s| && s[i].id == id
  }

  /** No two posts of `s` share an id. */
  predicate UniqueIds(s: seq<Post>)
  {
    forall i, j :: 0 <= i < j < |s| ==> s[i].id != s[j].id
  }

  /** `r` is obtained from `s` by leaving out some of its elements, keeping the order of the rest. */
  ghost predicate IsSubsequence(r: seq<Post>, s: seq<Post>)
    decreases |s|
  {
    if r == [] then true
    else if s == [] then false
    else (r[0] == s[0] && IsSubsequence(r[1..], s[1..])) || IsSubsequence(r, s[1..])
  }

  /** `posts.filter(post => post.id !== id)`: the posts of `s` whose id is not `id`. */
  function RemovePost(s: seq<Post>, id: int): (r: seq<Post>)
    ensures |r| <= |s|
    ensures forall p :: p in r <==> p in s && p.id != id
    ensures !HasId(r, id)
  {
    if s == [] then []
    else
      assert s == [s[0]] + s[1..];
      if s[0].id == id then RemovePost(s[1..], id)
      else [s[0]] + RemovePost(s[1..], id)
  }

  /** The filter keeps the surviving posts in their original relative order. */
  lemma {:induction false} RemovePostIsSubsequence(s: seq<Post>, id: int)
    ensures IsSubsequence(RemovePost(s, id), s)
  {
    if s != [] {
      RemovePostIsSubsequence(s[1..], id);
      var r := RemovePost(s, id);
      if s[0].id != id {
        assert r[0] == s[0] && r[1..] == RemovePost(s[1..], id);
      }
    }
  }

  /** Every post with a different id is kept, as many times as it occurs; the posts with `id` are all gone. */
  lemma {:induction false} RemovePostCount(s: seq<Post>, id: int, p: Post)
    ensures multiset(RemovePost(s, id))[p] == if p.id == id then 0 else multiset(s)[p]
  {
    if s != [] {
      RemovePostCount(s[1..], id, p);
      assert s == [s[0]] + s[1..];
      assert multiset(s) == multiset([s[0]]) + multiset(s[1..]);
    }
  }

  /** Filtering distributes over concatenation. */
  lemma {:induction false} RemovePostAppend(a: seq<Post>, b: seq<Post>, id: int)
    ensures RemovePost(a + b, id) == RemovePost(a, id) + RemovePost(b, id)
  {
    if a != [] {
      assert (a + b)[0] == a[0] && (a + b)[1..] == a[1..] + b;
      RemovePostAppend(a[1..], b, id);
      if a[0].id != id {
        assert RemovePost(a + b, id) == [a[0]] + (RemovePost(a[1..], id) + RemovePost(b, id));
      }
    } else {
      assert a + b == b;
    }
  }

  /**
   * A kept post stays between the survivors that came before it and the survivors
   * that came after it.
   */
  lemma RemovePostKeepsPlace(s: seq<Post>, id: int, i: int)
    requires 0 <= i < |s| && s[i].id != id
    ensures RemovePost(s, id) == RemovePost(s[..i], id) + [s[i]] + RemovePost(s[i + 1..], id)
  {
    assert s == s[..i] + ([s[i]] + s[i + 1..]);
    RemovePostAppend(s[..i], [s[i]] + s[i + 1..], id);
    assert ([s[i]] + s[i + 1..])[1..] == s[i + 1..];
  }

  /** Deleting an id that no post carries changes nothing and is not an error. */
  lemma {:induction false} RemovePostAbsent(s: seq<Post>, id: int)
    requires !HasId(s, id)
    ensures RemovePost(s, id) == s
  {
    if s != [] {
      assert s[0].id != id;
      assert !HasId(s[1..], id) by {
        forall i | 0 <= i < |s[1..]| ensures s[1..][i].id != id {
          assert s[1..][i] == s[i + 1];
        }
      }
      RemovePostAbsent(s[1..], id);
      assert s == [s[0]] + s[1..];
    }
  }

  /** Deleting the same id twice gives what deleting it once gives. */
  lemma RemovePostIdempotent(s: seq<Post>, id: int)
    ensures RemovePost(RemovePost(s, id), id) == RemovePost(s, id)
  {
    RemovePostAbsent(RemovePost(s, id), id);
  }

  /**
   * With unique ids, deletion removes exactly one post when the id is present
   * and none when it is absent; so the collection shrinks by at most one.
   */
  lemma {:induction false} RemovePostLength(s: seq<Post>, id: int)
    requires UniqueIds(s)
    ensures |RemovePost(s, id)| == if HasId(s, id) then |s| - 1 else |s|
    ensures |RemovePost(s, id)| >= |s| - 1
  {
    if s != [] {
      var t := s[1..];
      assert UniqueIds(t) by {
        forall i, j | 0 <= i < j < |t| ensures t[i].id != t[j].id {
          assert t[i] == s[i + 1] && t[j] == s[j + 1];
        }
      }
      if s[0].id == id {
        assert !HasId(t, id) by {
          forall i | 0 <= i < |t| ensures t[i].id != id {
            assert t[i] == s[i + 1];
          }
        }
        RemovePostAbsent(t, id);
        assert HasId(s, id) by { assert s[0].id == id; }
      } else {
        RemovePostLength(t, id);
        assert HasId(s, id) <==> HasId(t, id) by {
          if HasId(s, id) {
            var i :| 0 <= i < |s| && s[i].id == id;
            assert i > 0 && t[i - 1] == s[i];
          }
          if HasId(t, id) {
            var i :| 0 <= i < |t| && t[i].id == id;
            assert s[i + 1] == t[i];
          }
        }
      }
    }
  }
}
