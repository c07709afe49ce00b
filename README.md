# Movie recommender: retrieval and account state, modelled in Dafny

This project models the two pieces of logic of the Streamlit movie recommender in `app1.py`:

- **Top-5 retrieval** (`recommend`): the query title is looked up at its first catalog
  position; that position's similarity row is enumerated into `(position, score)` pairs,
  sorted by score, highest first, with Python's stable `sorted(..., reverse=True)`; the first
  entry is dropped, the next five are kept (`[1:6]`) and mapped back to titles.
  The catalog is a `seq<string>` indexed by position (the model assumes the DataFrame's row
  labels are 0..n-1; see "Left out"), the similarity matrix a `seq<seq<int>>`, and the sort an explicit stable descending
  insertion sort that compares scores only.
- **User store and session** (`registered_users`, `authenticated`, `current_user`): a class
  `Accounts.App` whose fields are the store (a `map` from email to a
  `{password, name, history}` record) and the two session fields, with one method per user
  action (sign up, sign in, logout, reset password, recommend, surprise) and the sidebar's
  recent-searches view.

Modules and files:

| file | module | contents |
|---|---|---|
| wrappers.dfy | `Wrappers` | `Option`, `Result` |
| slices.dfy | `Slices` | Python's `s[lo:hi]` and `s[-n:]` |
| ranking.dfy | `Ranker` | the stable descending insertion sort and its characterisation |
| recommender.dfy | `Recommender` | title lookup, `recommend` and its properties |
| scenarios.dfy | `Scenarios` | two worked examples of `recommend` |
| accounts.dfy | `Accounts` | the user store and session class, and a client scenario |

The ranking is proved correct against an independent definition: the output of the sort is
a rearrangement of the enumerated row that is strictly ordered by "higher score, then lower
position" (`Ranker.Before`), and any such rearrangement equals the sort's output
(`Ranker.RankingIsUnique`). The properties of `recommend` follow from that: the result has
`min(5, n - 1)` titles for a row of `n >= 1` scores (none for an empty row), comes in non-increasing score order with ties
in ascending position order, and holds ranks 1 to 5 of the full ranking, so that only the top
entry is skipped. The queried position is never kept when its self-score beats every other
score in its row (`Recommender.SelfExcluded`). With distinct titles and an aligned matrix,
its title is then not recommended (`Recommender.RecommendExcludesQuery`); when two positions
share a title, the other one can still be recommended under the query's title.
A tie at the top does not guarantee that: for instance, with two titles whose scores tie,
the earlier one is dropped and the query's own title is recommended
(`Scenarios.RecommendScenarioTie`).

`recommend` raises instead of returning when the title is absent (`.index[0]` of an empty
selection), when the matrix has no row for the position, or when a kept position is beyond
the catalog; each is a `Recommender.RecommendError`. With an aligned catalog and matrix only
the first can happen (`Recommender.RecommendAligned`).

The sign-up and sign-in methods require a signed-out session and the others a signed-in
one: those are the two pages of the app (`if not st.session_state.authenticated`, line 66,
and `if st.session_state.authenticated`, line 99), and no action is reachable from the
other page. `Accounts.App.Valid` states the session invariant the code keeps: signed in
exactly when a current user is set, and that user is registered.

The model follows app1.py: the recent searches are shown oldest first (`history[-10:]`,
line 113); an absent title raises `IndexError` (line 51), modelled as `TitleNotFound`; the
self-match is left out only because the top-ranked entry is dropped; a password reset
(line 109) is not followed by `save_users`.

## Model

| member | source | states |
|---|---|---|
| Slices.Slice | app1.py:53 | `s[lo:hi]` never fails: it has `max(0, min(hi, len(s)) - lo)` elements, the ones at positions `lo`, `lo + 1`, ... of `s` |
| Slices.LastN | app1.py:113 | `s[-n:]` is the suffix of `s` of length `min(n, len(s))` for `n > 0`, and all of `s` for `n == 0` |
| Slices.LastNAppend | app1.py:113 | appending a title slides the recent window: the new title comes last and, when the window was full, the oldest one falls out |
| Ranker.Enumerate | app1.py:53 | `list(enumerate(distances))`: one pair per position of the row, positions in ascending order, each with that position's own score |
| Ranker.Ranking | app1.py:52-53 | the whole `sorted(...)` call on a row: one entry per position; its order is characterised by `Ranker.RankingCorrect` and `Ranker.RankingIsUnique` |
| Ranker.Insert | app1.py:53 | one insertion step adds exactly the inserted pair to the elements of the list |
| Ranker.SortDescending | app1.py:53 | the sort's output is a permutation of its input |
| Ranker.InsertRanked | app1.py:53 | inserting a pair that came before every element of a ranked list in input order keeps it ranked: it goes ahead of equal scores |
| Ranker.SortRanked | app1.py:53 | the stable sort of pairs listed in ascending position order is in descending score order with ties in ascending position order |
| Ranker.RankedUnique | app1.py:53 | two ranked lists with the same elements are equal: the ranking order leaves no freedom |
| Ranker.RankingCorrect | app1.py:52-53 | the ranking of a row is a rearrangement of `enumerate(row)` and is ranked |
| Ranker.RankingIsUnique | app1.py:52-53 | any ranked rearrangement of `enumerate(row)` is the ranking: the insertion sort equals the stable sort by definition |
| Ranker.RankingEntries | app1.py:52-53 | each ranked pair is a valid position of the row paired with that position's own score |
| Ranker.RankingCovers | app1.py:52-53 | every position of the row appears in the ranking with its score |
| Recommender.FindTitle | app1.py:51 | the lookup fails exactly when the title is absent; otherwise it gives a position holding the title with no earlier position holding it |
| Recommender.Kept | app1.py:53 | the kept positions are ranks 1 up to 5 of the ranking, `min(5, n - 1)` of them for a row of `n`, none for an empty row |
| Recommender.Recommend | app1.py:50-54 | fails with `TitleNotFound` exactly when the title is absent, `RowMissing` exactly when the matrix has no row for it, `PeerOutOfCatalog` exactly when a kept position has no title; otherwise returns the titles of the kept positions in rank order |
| Recommender.KeptOrdered | app1.py:53-54 | the kept positions are in the row, scores do not increase along them, and equal scores come in ascending position order |
| Recommender.SkippedIsTop | app1.py:53 | the dropped entry has the highest score of the row, at the lowest position among equal highest scores, and is not kept |
| Recommender.KeptAreNextBest | app1.py:53 | every position of the row is the dropped top, or kept, or ranked behind every kept position: nothing but the top is skipped |
| Recommender.SelfExcluded | app1.py:53 | a position whose self-score beats every other score of its row is not among its own kept positions |
| Recommender.RecommendAligned | app1.py:50-54 | with one row per title and one score per title in each row, `recommend` succeeds exactly when the title is present, with `min(5, n - 1)` titles for a catalog of `n` |
| Recommender.RecommendExcludesQuery | app1.py:50-54 | with distinct titles, an aligned matrix and a strictly highest self-score, the queried title is not recommended |
| Scenarios.RankingRowA | app1.py:53 | a row of seven scores for A ranks A, C, B, G, D, F, E |
| Scenarios.RecommendScenarioA | app1.py:50-54 | for catalog A..G with that row, `recommend("A")` returns C, B, G, D, F |
| Scenarios.RecommendScenarioTie | app1.py:53 | example: for titles B, A whose row for A scores both 5, `recommend("A")` returns A itself, since B is the entry dropped |
| Accounts.App.Valid | app1.py:32-41 | the session invariant kept by the start of a session and by sign-in (lines 92-93) and logout (lines 117-118): signed in exactly when a current user is set, and that user is registered |
| Accounts.App.CurrentRecord | app1.py:100 | `user_data`: on the signed-in page the lookup `registered_users[current_user]` succeeds and yields one of the stored records |
| Accounts.App.constructor | app1.py:22-41 | a session starts with the loaded store, signed out, with no current user |
| Accounts.App.SignUp | app1.py:70-82 | an email already registered is refused and the store is unchanged; otherwise exactly one record with the password, the name and an empty history is added, every other entry is kept, and the session stays signed out |
| Accounts.App.SignIn | app1.py:85-96 | signs in, setting both session fields, if and only if the email is registered with exactly that password; on failure nothing changes; the store never changes |
| Accounts.App.Logout | app1.py:116-119 | clears `authenticated` and `current_user`, store unchanged |
| Accounts.App.ResetPassword | app1.py:106-110 | only the signed-in user's password changes; its name and history, every other record and the session are kept |
| Accounts.App.Recommend | app1.py:132-134 | returns `recommend(selected)`; when it succeeds exactly `selected` is appended to the end of the signed-in user's history and nothing else changes; when it raises nothing changes |
| Accounts.App.Surprise | app1.py:151-153 | `surprise_me` (lines 58-59) then the append: appends one catalog title, the chosen one, to the end of the signed-in user's history and changes nothing else; on an empty catalog nothing changes |
| Accounts.App.RecentSearches | app1.py:112-114 | the sidebar shows the last `min(10, len(history))` titles of the history, in their original order |

## Left out

- The catalog's row labels: the model assumes the DataFrame built from the pickled dictionary (line 28) has labels 0..n-1. Line 51 yields a label (`.index[0]`) while lines 52 (`similarity[...]`) and 54 (`iloc`) index by position; with any other labels the three disagree, which the model does not capture.
- Loading and saving: `load_users`, `save_users` and the pickled catalog and matrix (lines 11-19, 27-29). The constructor takes the loaded store as a parameter (an empty map when there is no file); `Recommend` takes the titles and the matrix as parameters. The save after a sign-up (line 80) writes to disk and changes no modelled state.
- Randomness: `generate_captcha` and the `captcha` session field (lines 34-35, 45-46), which nothing reads; the random pick of `surprise_me` is the parameter `choice` of `Accounts.App.Surprise`.
- Accounts.App.Surprise: states that the chosen title is appended, not that the choice is uniform, since the random source is outside the model.
- The session-wide `history` list (lines 38-39), which nothing reads or writes after it is created.
- Floating-point scores: scores are integers, since only their order matters; NaN, which Python's sort does not order, is not modelled.
- The user interface: widgets, `st.rerun`, the profile lines (lines 102-104), the grid showing the recommendations (lines 137-149), the surprise box (lines 154-161), the reset-selection widget write (line 165) and the styling (lines 169-204).
- Accounts.App.ResetPassword: models the transition the handler performs once it runs; in Streamlit the Confirm button is nested inside the Reset Password button's branch and is not reached on the click that would confirm, which is widget control flow outside the model.
- Concurrency: several sessions sharing one store, and locking, which the code does not implement.
