# Post cards demo: a verified model

The repository is a small React demo: `App` holds an ordered list of posts and
renders one `PostCard` per post. Each card owns three pieces of state — whether
its popup menu is open (`menuVisible`), whether it is a favorite
(`isFavorite`) and its own copy of the post text (`postContent`) — and five
handlers change them: toggle the menu, dismiss it on a mouse-down outside its
region, edit the text through a prompt, delete the post after a confirmation,
and toggle the favorite flag. A `useEffect` keyed on `menuVisible` attaches
the document's mouse-down listener while the menu is open and detaches it
otherwise and at teardown. `App` deletes a post by filtering its list by id.

The model has four modules:

- `Wrappers` — `Option`, used for the prompt's answer (None for a cancelled prompt) and for the id a card passes to `onDelete`.
- `Posts` — the `Post` record and `RemovePost`, the filter by id, with its properties: no post with that id remains, all others are kept with their multiplicity and order, absent ids are a no-op, deletion is idempotent, and with unique ids it removes at most one post.
- `PostCards` — the card's state as a value (`CardState`) with one function per handler, event traces with the menu-parity property, a dispatch of one mouse-down to several cards, and the `PostCard` class whose methods are the handlers. The listener's lifecycle is tracked by ghost fields (`listenerAttached`, `effectMenuVisible`, `mounted`) tied together by `Valid()`.
- `PostApp` — the seed collection, the `App` class holding `posts`, the mounting of a card for a post, and the delete path from a card's confirmation to `handleDeletePost`.

The host dialogs are inputs: `prompt` becomes an `Option<string>` parameter and
`window.confirm` a `bool`; a mouse-down's target is reduced to whether it lies
inside the card's menu region. The menu region (`menuRef.current`) exists
exactly while the menu is rendered, that is while `menuVisible` holds.

An edit changes only the card's `postContent`; App's `posts` keeps the
original `content` for ever. The model keeps this: no card method modifies
`App`, and `DeleteFromCard` modifies only the collection.

## Model

| member | source | states |
|---|---|---|
| `Posts.RemovePost` | 15-project/src/App.tsx:56 | the result is no longer than the input; a post is in the result exactly when it is in the input and has a different id; no post of the result has the deleted id |
| `Posts.RemovePostIsSubsequence` | 15-project/src/App.tsx:56 | the result is a subsequence of the input: surviving posts keep their relative order |
| `Posts.RemovePostCount` | 15-project/src/App.tsx:56 | each post with a different id occurs in the result as often as in the input; posts with the deleted id occur zero times |
| `Posts.RemovePostAppend` | 15-project/src/App.tsx:56 | deleting from a concatenation is the concatenation of the deletions |
| `Posts.RemovePostKeepsPlace` | 15-project/src/App.tsx:56 | a kept post sits between the survivors of the posts before it and the survivors of the posts after it |
| `Posts.RemovePostAbsent` | 15-project/src/App.tsx:56 | deleting an id no post carries returns the collection unchanged |
| `Posts.RemovePostIdempotent` | 15-project/src/App.tsx:56 | deleting the same id twice equals deleting it once |
| `Posts.RemovePostLength` | 15-project/src/App.tsx:41-56 | with unique ids the length drops by one exactly when the id is present and stays the same otherwise, so by at most one |
| `PostApp.SeedPostsShape` | 15-project/src/App.tsx:41-53 | the initial collection has two posts, with ids 1 and 2, and its ids are unique |
| `PostApp.SeedDeletion` | 15-project/src/App.tsx:41-56 | deleting id 2 from the seed leaves just post 1; deleting id 99 leaves the seed unchanged |
| `PostApp.App.constructor` | 15-project/src/App.tsx:41-53 | App starts with the seed collection |
| `PostApp.App.HandleDeletePost` | 15-project/src/App.tsx:55-57 | the new collection is the filter of the old one by id: the id is gone and every other post stays |
| `PostApp.MountCard` | 15-project/src/App.tsx:62-69 | a card rendered for a post gets its id, title and content and starts in the initial state with that content and no listener |
| `PostApp.DeleteFromCard` | 15-project/src/App.tsx:55-68 | a confirmed delete on a card removes the card's id from the collection; a declined one leaves the collection unchanged; the card itself is not modified |
| `PostCards.PostCard.constructor` | 15-project/src/components/PostCard.tsx:42-50 | a new card keeps its id and title, has the menu closed, is not a favorite, shows exactly the given content, and is not yet listening |
| `PostCards.PostCard.ToggleMenu` | 15-project/src/components/PostCard.tsx:53-55 | menu visibility flips; favorite flag and content are unchanged |
| `PostCards.ToggledInvolution` | 15-project/src/components/PostCard.tsx:53-55 | toggling twice restores the state; a toggle leaves favorite flag and content alone |
| `PostCards.PostCard.HandleClickOutside` | 15-project/src/components/PostCard.tsx:57-64 | the menu stays open only if it was open and the target is inside it; a click inside, or any click while the menu is absent, changes nothing; other fields unchanged |
| `PostCards.DispatchMouseDown` | 15-project/src/components/PostCard.tsx:57-64 | one mouse-down seen by several cards closes each open menu whose region does not contain the target, and changes nothing else on any card |
| `PostCards.MenuParity` | 15-project/src/components/PostCard.tsx:53-64 | after any sequence of interactions the menu is open exactly when the toggles since the last outside click are odd in number, counted from closed if an outside click happened and from the starting visibility otherwise |
| `PostCards.MenuParityFromInitial` | 15-project/src/components/PostCard.tsx:48-64 | from a new card the menu is open exactly when an odd number of toggles followed the last outside click |
| `PostCards.PostCard.CommitListenerEffect` | 15-project/src/components/PostCard.tsx:66-76 | after the effect commit the listener is attached exactly when the menu is visible; the effect body runs (its run count grows by one) exactly on first mount or when `menuVisible` changed, and the listener comes off only through the previous run's cleanup, since the body's removal call targets the current render's handler, which was never added |
| `PostCards.PostCard.Unmount` | 15-project/src/components/PostCard.tsx:73-75 | teardown detaches the listener whatever the menu's state and leaves the card's state alone |
| `PostCards.PostCard.HandleEdit` | 15-project/src/components/PostCard.tsx:78-83 | a non-empty answer becomes the content; a cancelled prompt or an empty answer leaves it; menu and favorite flag unchanged |
| `PostCards.PostCard.HandleDelete` | 15-project/src/components/PostCard.tsx:85-89 | a confirmed delete asks `onDelete` once with the card's own id; a declined one asks nothing; the card's state is never changed |
| `PostCards.PostCard.HandleFavorite` | 15-project/src/components/PostCard.tsx:91-93 | the favorite flag flips; menu and content unchanged |
| `PostCards.FavoritedInvolution` | 15-project/src/components/PostCard.tsx:91-93 | favoriting twice restores the state; favoriting leaves menu and content alone |
| `PostCards.FavoriteIndicator` | 15-project/src/components/PostCard.tsx:99 | the indicator text is non-empty exactly when the card is a favorite |
| `PostCards.PostCard.IndicatorText` | 15-project/src/components/PostCard.tsx:99 | the card's indicator is the empty string exactly when it is not a favorite |

## Left out

- Styling and layout (the styled-components, media queries and JSX markup): presentation only.
- DOM event plumbing (`addEventListener`, `removeEventListener`, `contains`): the listener is a ghost flag and the click target a boolean.
- The host dialogs `prompt` and `window.confirm`: blocking foreign calls; their answers are parameters. The prompt's message and default text (the current `postContent`) are not modelled.
- `PostMenu`: its source is not part of this model; it is taken to call `onEdit`, `onDelete` or `onFavorite` once per activation.
- React scheduling: batched or asynchronous state updates, stale closures in the effect's listener, `key`-based identity and the mouse-down-then-click sequence on the menu button. Each handler is applied to the current state, and the mouse-down dispatch assumes the listener reflects the current `menuVisible`.
- Later prop changes: `useState(content)` reads the prop only on the first render; the model has no re-render with new props.
- Ids are TypeScript numbers; the model uses unbounded integers, so floating-point ids and NaN are not modelled.
