# Board and guestbook stores, verified in Dafny

This project models the backend core of a small portfolio site: two
in-memory record stores and the request validation in front of them.

- **Board post store** (`lib/board.ts`): a module-level array of posts and
  a `nextId` counter. Posts can be added, found, updated, deleted and
  cleared, and listed newest first. Any user can toggle a like on a post.
  Each post keeps a `likedBy` list of user ids and a `likeCount` beside it.
  The code never recomputes `likeCount`; it only moves it by ±1 in step with
  the list.
- **Guestbook entry store** (`lib/guestbook.ts`): the same array-plus-counter
  pattern for entries, with no likes and no `updatedAt`.
- **Collection endpoints** (`app/api/board/route.ts`,
  `app/api/guestbook/route.ts`): `POST` runs an ordered chain of checks and
  either answers 400 or adds one record and answers 201. `GET` lists the
  store.

Layout, one module per file:

- `records.dfy`, module `Records`: the sequence operations the stores rely
  on. This covers `findIndex`/`find` by id, `indexOf`, `splice` of one
  element, and the `sort` by creation time, written as a stable insertion
  sort. It also holds the permutation lemmas that keep ids distinct and make
  lookup independent of order.
- `text.dfy`, module `Text`: `trim` over a fixed whitespace set, and the
  falsiness test `!field`.
- `board.dfy`, module `Board`: the `Post` record, the like toggle as a
  specification function (`Toggled`) with its lemmas, and the `PostStore`
  class.
- `guestbook.dfy`, module `Guestbook`: the `Entry` record and the
  `EntryStore` class.
- `board_route.dfy` and `guestbook_route.dfy`: the validators, as pure
  functions, and the `POST`/`GET` handlers, as methods on a store.

Each store is a class holding a `seq` of records and the counter. Its
methods change those fields as the source changes its module variables. Each
method's `ensures` gives the new state in terms of the old one. The class
invariant `Valid()` says three things:

- ids are distinct;
- ids lie in `[1, nextId)`;
- for posts, `likedBy` has no duplicates and `likeCount == |likedBy|`.

Every method preserves that invariant. Timestamps are integers supplied by
the caller (`now`).

Behaviour of the code that the model keeps as written:

- `getAllPosts` sorts the store array in place and returns that same array.
  `toggleLike` calls it first, and board `POST` calls it after `addPost`, so
  both reorder the store. The model does the same. Their contracts therefore
  speak of the multiset of posts and of the newest-first order, not of
  positions.
- The title, content, name and message length limits (100, 2000, 50, 500)
  apply to the raw field, not the trimmed one. A title of 99 letters with a
  space on each side (101 characters) is rejected even though it would be
  stored as 99 characters.
- The listing sorts by `createdAt` alone, with a stable sort, so posts with
  equal times keep the array's current order. No tie order (such as higher
  id first) is claimed here.
- Lookup in `toggleLike` is integer equality. Its coercing comparisons and
  its fallback search in `allPosts` can never find anything the first search
  missed, because `allPosts` is the same array as `boardPosts`.

## Model

| member | source | states |
|---|---|---|
| Records.IndexOfKey | lib/board.ts:56 | the position of the first record with the given id, or -1 exactly when no record has it |
| Records.FindIndex | lib/guestbook.ts:44 | the linear scan of `findIndex` returns exactly the first position with the id, or -1 |
| Records.FindByKey | lib/board.ts:27-29 | `find` gives one exactly when some record has the id, and what it gives is the first record of the store with that id |
| Records.FindByKeyUnique | lib/board.ts:28 | with distinct ids, the record found for an id is the one record holding it |
| Records.FindByKeyPermutation | lib/board.ts:71-80 | with distinct ids, re-sorting the store does not change which post a lookup finds |
| Records.IndexOf | lib/board.ts:116 | `indexOf` gives the first occurrence of the user, or -1 exactly when the user is absent |
| Records.RemoveAt | lib/board.ts:60 | `splice(i, 1)` shifts later elements down one place and removes exactly one copy of the element at `i` |
| Records.RemoveAtKeysDistinct | lib/board.ts:55-62 | removing one record keeps ids distinct, and no remaining record has the removed id |
| Records.AppendFreshKey | lib/board.ts:33-40 | appending a record whose id is the current counter keeps ids distinct and below the incremented counter |
| Records.RemoveAtNoDuplicates | lib/board.ts:125 | splicing a user out of a duplicate-free like list leaves it duplicate-free and without that user |
| Records.PermutationKeepsKeysDistinct | lib/board.ts:22-24 | any reordering of a store with distinct ids still has distinct ids |
| Records.InsertDesc | lib/board.ts:22-24 | one insertion step adds exactly that record and keeps a newest-first sequence newest-first |
| Records.SortDesc | lib/guestbook.ts:13-15 | the sort returns a permutation of its input ordered by non-increasing creation time |
| Records.NewestFirst | lib/guestbook.ts:12-16 | in any newest-first ordering of the records (the sort's result, or a store after its listing), a record created strictly after all others comes first |
| Text.Trim | lib/board.ts:34-35 | `trim` returns the slice of the input that starts after its leading whitespace, with only whitespace before and after it; the slice neither starts nor ends with whitespace and is empty exactly when the input is all whitespace |
| Text.AsciiSpaces | lib/board.ts:34-35 | among ASCII characters, exactly space, tab, line feed, carriage return, vertical tab and form feed count as whitespace to `trim` |
| Text.Falsy | app/api/board/route.ts:36 | `!field` holds exactly for a missing field and for the empty string, and an empty field also counts as blank |
| Text.Blank | app/api/board/route.ts:46 | `field.trim().length === 0` holds exactly when the field is present and consists only of whitespace |
| Text.TrimIdempotent | lib/board.ts:34-35 | trimming an already trimmed string changes nothing |
| Board.Toggled | lib/board.ts:116-129 | the toggle changes only `likedBy`/`likeCount`; an absent user is appended with the count +1; a present one is removed once with the count -1 |
| Board.ToggledConsistent | lib/board.ts:116-129 | toggling keeps `likedBy` duplicate-free with `likeCount` equal to the length of `likedBy`, so the count stays non-negative; the user afterwards likes the post exactly when it did not before; other users' likes are unchanged |
| Board.ToggledTwice | lib/board.ts:116-129 | two toggles by one user restore the count and the multiset of users (and the whole post if the user had not liked it), and the reported like state alternates |
| Board.UnlikeAfterLike | lib/board.ts:116-129 | a like followed by an unlike by the same user gives back exactly the original post |
| Board.LikeScenario | lib/board.ts:116-129 | on a fresh post, alice likes, bob likes, then alice unlikes, giving `likedBy` = ["alice"], ["alice","bob"], ["bob"] with counts 1, 2, 1 |
| Board.AppendKeepsInvariant | lib/board.ts:31-42 | appending a post with id `nextId` and consistent likes keeps the store invariant with the counter moved past it |
| Board.Edited | lib/board.ts:49-51 | `updatePost` sets the trimmed title and content and `updatedAt = now`, and keeps the post's id, creation time, `likeCount` and `likedBy` |
| Board.EditKeepsInvariant | lib/board.ts:44-53 | editing one post's title, content and `updatedAt` keeps the store invariant |
| Board.ReplaceKeepsInvariant | lib/board.ts:49-51 | replacing a post by one with the same id and creation time and consistent likes keeps the store invariant and the newest-first order |
| Board.PostStore.constructor | lib/board.ts:12-13 | the store starts empty with `nextId = 1` and satisfies the invariant |
| Board.PostStore.GetAllPosts | lib/board.ts:15-25 | the store is permuted in place into newest-first order, `nextId` is unchanged, and the sorted store is returned |
| Board.PostStore.GetPostById | lib/board.ts:27-29 | returns the post with the id when one exists (it is the only one) and nothing otherwise |
| Board.PostStore.AddPost | lib/board.ts:31-42 | the new post gets id = old `nextId`, trimmed text, count 0, empty `likedBy`, `createdAt = now`, no `updatedAt`; it is appended and `nextId` grows by exactly 1 |
| Board.PostStore.UpdatePost | lib/board.ts:44-53 | an unknown id returns nothing and changes nothing; otherwise only that post's title/content (trimmed) and `updatedAt` change, and it is returned |
| Board.PostStore.DeletePost | lib/board.ts:55-62 | returns true exactly when a post with the id existed; then exactly that post is spliced out and the rest keep their order |
| Board.PostStore.ToggleLike | lib/board.ts:64-130 | re-sorts the store; an unknown id returns no post, `isLiked = false` and the same posts; otherwise the matched post becomes `Toggled(p, user)`, is returned, `isLiked` says whether the user was absent before, and no other post changes |
| Board.PostStore.IsLikedByUser | lib/board.ts:132-138 | true exactly when a post with the id exists and the user is in its `likedBy` |
| Board.PostStore.ClearAllPosts | lib/board.ts:140-144 | the store is empty, `nextId` is 1 again, and it returns true |
| Board.ToggleLikeTwice | lib/board.ts:64-130 | two consecutive `toggleLike` calls on a known post report alternating like states and leave it with its original count and users; on an unknown id nothing is reported liked and the posts are the same |
| Guestbook.ReplaceKeepsInvariant | lib/guestbook.ts:33-41 | replacing an entry by one with the same id keeps ids distinct and in range |
| Guestbook.EntryStore.constructor | lib/guestbook.ts:9-10 | the store starts empty with `nextId = 1` |
| Guestbook.EntryStore.GetAllEntries | lib/guestbook.ts:12-16 | the store is permuted in place into newest-first order and returned; `nextId` is unchanged |
| Guestbook.EntryStore.AddEntry | lib/guestbook.ts:18-27 | the new entry gets id = old `nextId`, trimmed name and message, `createdAt = now`; it is appended and `nextId` grows by 1 |
| Guestbook.EntryStore.GetEntryById | lib/guestbook.ts:29-31 | returns the entry with the id when one exists (it is the only one) and nothing otherwise |
| Guestbook.EntryStore.UpdateEntry | lib/guestbook.ts:33-41 | an unknown id returns nothing and changes nothing; otherwise only that entry's name and message change (trimmed), keeping id and creation time |
| Guestbook.EntryStore.DeleteEntry | lib/guestbook.ts:43-50 | returns true exactly when an entry with the id existed; then exactly that entry is spliced out |
| Guestbook.EntryStore.ClearAllEntries | lib/guestbook.ts:52-56 | the store is empty and `nextId` is 1, so the next added entry gets id 1 |
| BoardRoute.ValidatePost | app/api/board/route.ts:36-74 | a request is accepted exactly when both fields are present, neither trims to empty, the raw title is at most 100 and the raw content at most 2000 long; missing/empty beats blank, which beats title length, which beats content length |
| BoardRoute.StatusOf | app/api/board/route.ts:36-91 | an accepted request is answered 201 and a rejected one 400, and no verdict gets the other code |
| BoardRoute.AcceptedIsWellFormed | app/api/board/route.ts:36-76 | an accepted post's trimmed title has 1 to 100 characters and its trimmed content 1 to 2000 |
| BoardRoute.HandlePost | app/api/board/route.ts:30-101 | a rejected request gets 400 and leaves the store unchanged; an accepted one gets 201 with the post `addPost` made, exactly one post is added, `nextId` grows by 1, and the store is left newest first |
| BoardRoute.HandleGet | app/api/board/route.ts:5-27 | answers 200 with all posts, newest first |
| GuestbookRoute.ValidateEntry | app/api/guestbook/route.ts:34-72 | a request is accepted exactly when both fields are present, neither trims to empty, the raw name is at most 50 and the raw message at most 500 long; the checks take effect in that order |
| GuestbookRoute.StatusOf | app/api/guestbook/route.ts:34-82 | an accepted request is answered 201 and a rejected one 400, and no verdict gets the other code |
| GuestbookRoute.AcceptedIsWellFormed | app/api/guestbook/route.ts:34-74 | an accepted entry's trimmed name has 1 to 50 characters and its trimmed message 1 to 500 |
| GuestbookRoute.HandlePost | app/api/guestbook/route.ts:28-93 | a rejected request gets 400 and leaves the store unchanged; an accepted one gets 201 with the new entry, which is appended, and `nextId` grows by 1 |
| GuestbookRoute.HandleGet | app/api/guestbook/route.ts:5-25 | answers 200 with all entries, newest first |

## Left out

- Board.PostStore.ToggleLike: the resulting posts are stated as a multiset in newest-first order, not by position, because no tie order is claimed for the sort it runs first.
- Board.PostStore.GetAllPosts: likewise states a newest-first permutation, not which permutation.
- Guestbook.EntryStore.GetAllEntries: likewise states a newest-first permutation, not which permutation.
- BoardRoute.HandlePost: likewise states the store after an accepted request as a multiset in newest-first order.

- Aliasing: the source hands back the stored post or entry object, so a caller can mutate the store through it. The model stores records as values and returns copies.
- Timestamps: `new Date().toISOString()` and `getTime()` are not modelled. Times are integers passed in by the caller.
- `trim` and `.length`: JavaScript strips Unicode whitespace and counts UTF-16 code units. The model uses a fixed whitespace set and counts characters.
- Id arithmetic: JavaScript numbers are doubles, so ids stop being exact above 2^53. The model's ids are unbounded integers.
- The `!post.likedBy` repairs in `getAllPosts` and `toggleLike` are no-ops. `likedBy` is a required field that `addPost` always sets.
- `toggleLike`'s string/number id coercion and its `allPosts` fallback are not modelled. Lookup is integer equality, since the fallback can never find anything new.
- `console.log`/`console.error` diagnostics are not modelled.
- Request parsing (`request.json()`) and response objects are not modelled. Fields that are present but are not strings are outside the model's `Option<string>`. A falsy one (0, false) is rejected with 400 like a missing field. Otherwise a non-string field throws when `.trim()` is called on it, giving status 500. The second field's `.trim()` is skipped when the first field is only whitespace, because the blank check uses `||`, and such a request gets 400. This path is not modelled.
- The per-id routes (`app/api/board/[id]`, `app/api/guestbook/[id]`, the like route), the clear routes, health, projects and portfolio data, the React page and the Supabase setup script are not part of this model.
- Concurrency: the stores are single-threaded; every operation is a sequential method.
