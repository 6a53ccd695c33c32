# Stratagem randomizer: the constrained sampler

This project models the selection core of the loadout randomizer server: the
function that draws up to `count` stratagems from four categories (DEFENSE,
EAGLES, ORBITALS, SUPPORT) under a per-category mode (Normal, Heavy, Light, No,
Only), the single-slot reroll that builds one admissible pool and picks one name
from it, the uniform picks used for the other loadout slots, and the flattening
of the catalog that the server does when it loads.

Files, one module each:

- `wrappers.dfy`: `Option`.
- `seqs.dfy`: the array primitives the sampler uses (`splice(i, 1)`, `findIndex`,
  `filter` with `includes`) and the counting function `CountIn` used to state
  per-category quotas.
- `catalog.dfy`: categories, the catalog, the flat list of all names, the
  name-to-category lookup table, and the "names are unique" predicate.
- `modes.dfy`: modes, the merge with the all-Normal defaults, the first Only
  category, and the Heavy/Light/No lists.
- `random.dfy`: `Math.floor(Math.random() * n)` as `RandomIndex(r, n)` for any
  `0 <= r < 1`, `getRandomItem` and `getRandomItemWithData`.
- `sampler.dfy`: `getRandomStratagems` as methods: the Only branch, the pool,
  the Heavy pass, the Light pass and the top-up loop.
- `reroll.dfy`: the pool and pick of the `/api/random/stratagem` handler.

Randomness is an arbitrary choice: every method picks `r :| 0.0 <= r < 1.0`, so
what its `ensures` states holds for every outcome of the random source.
Several properties of the sampler only hold when no name is listed twice in
the catalog (`UniqueNames`). The removal of a drawn name from the pool with
`findIndex` relies on this. These properties are stated as
`UniqueNames(c) ==> ...`, so the model does not require unique names.

The main guarantees of `Sampler.GetRandomStratagems`:

- At most `count` names. No duplicates when names are unique.
- Only branch: the first Only category in category order is used. The result is a
  sub-multiset of that category's list, of length `min(count, |list|)`.
- General branch: every name comes from a category not marked No.
- General branch, Heavy categories. Categories take their turns in the order
  DEFENSE, EAGLES, ORBITALS, SUPPORT. So the `j`-th Heavy category (counting from 0)
  starts its turn with at most `2j` slots taken. It gives at least
  `min(2, |list|, count - 2j)` names. In particular, when `count >= 2 * (number of
  Heavy categories)`, every Heavy category gives at least `min(2, |list|)`. The
  top-up loop may add more names from a Heavy category.
- General branch, Light categories. The `j`-th Light category takes its turn after
  at most `2 * (number of Heavy categories) + j` picks. If that number is below
  `count` and its list is non-empty, it gives a name. In particular, when `count` is
  at least twice the number of Heavy categories plus the number of Light categories,
  every non-empty Light category gives a name.
- General branch: if the result is short of `count`, every Heavy category has given
  at least `min(2, |list|)` names and every non-empty Light category has given a name. With
  unique names, no Light category gives more than one.
- General branch: a short result leaves nothing drawable behind.
- General branch: with unique names and no Light category, the length is
  `min(count, |pool|)`.

## Model

| member | source | states |
|---|---|---|
| Seqs.Splice | server.js:91 | `splice(i, 1)` removes exactly the element at `i`: the elements before it stay, the ones after it shift down one, and the multiset loses one copy of that element |
| Seqs.IndexOf | server.js:157 | `findIndex` gives -1 exactly when the name is absent, and otherwise the first index that holds it |
| Seqs.RemoveFirst | server.js:157-160 | find-and-splice removes one occurrence of the name when present and leaves the list alone otherwise; on a duplicate-free list the name is then gone and the list stays duplicate-free |
| Seqs.Without | server.js:424 | the exclude filter keeps exactly the names that are in the list and not in the exclude list, and keeps a duplicate-free list duplicate-free |
| Catalog.AllNames | server.js:29-35 | the flat list `allStratagems` holds exactly the names of all categories, its length is the sum of the category lengths, and it is duplicate-free when names are unique |
| Catalog.AllNamesUnique | server.js:32-35 | the flat list is duplicate-free exactly when names are unique within and across categories |
| Catalog.GatherMembership | server.js:128-132 | the lists appended by the pool loop hold exactly the names of the visited categories that are not excluded |
| Catalog.GatherNoDuplicates | server.js:128-132 | with unique names, the appended list is duplicate-free |
| Catalog.RecordCategoryCorrect | server.js:118-123 | the name-to-record table has an entry exactly for the catalogued names. The entry's category lists the name, and no later category lists it, because later writes overwrite earlier ones. With unique names it is the only category that lists it |
| Modes.Merge | server.js:63-71 | a mode the caller gives wins, and a missing mode becomes Normal |
| Modes.OnlyCategory | server.js:76 | None exactly when no category is Only; otherwise an Only category with no Only category before it in category order |
| Modes.CategoriesWith | server.js:99-111 | the Heavy, Light and No lists hold exactly the categories with that mode, each once, in category order |
| Modes.SelectInRankOrder | server.js:99-106 | filtering the category list keeps its order, so the Heavy and Light passes visit their categories in DEFENSE, EAGLES, ORBITALS, SUPPORT order |
| Random.RandomIndex | server.js:85 | `Math.floor(Math.random() * n)` is a valid index of an `n`-element list |
| Random.RandomIndexCovers | server.js:85 | every index of an `n`-element list is drawn for some value of the random source |
| Random.GetRandomItem | server.js:52-55 | null exactly for a missing or empty list, and otherwise an element of the list |
| Random.GetRandomItemReachesAll | server.js:52-55 | every element of a non-empty list can be picked |
| Random.FindByName | server.js:232 | `find` yields the first record with the name, or nothing exactly when no record has it |
| Random.GetRandomItemWithData | server.js:229-233 | null exactly for a missing or empty name list; otherwise the first record of `itemsData[category]` carrying the picked name, which is in the list, or undefined when no record carries it |
| Random.GetRandomItemWithDataFinds | server.js:229-233 | when the name list is derived from the same records, as the loader does at lines 16-21, the lookup always finds a record |
| Sampler.PoolMembership | server.js:126-132 | the pool holds exactly the names listed in a category not marked No, and is duplicate-free when names are unique |
| Sampler.BuildPool | server.js:126-132 | the pool loop appends the lists of the categories not excluded, in category order |
| Sampler.EmptyPool | server.js:134-137 | an empty pool means every category not marked No is empty, and `[]` then meets every Heavy, Light and top-up guarantee of the general branch |
| Sampler.EmptyCatalog | server.js:60 | an empty flat list means every category is empty and the pool is empty |
| Sampler.DrawOnly | server.js:81-92 | the Only branch returns `min(count, |list|)` names forming a sub-multiset of the category's list, duplicate-free when the list is |
| Sampler.HeavyTurn | server.js:143-161 | one Heavy category's turn adds exactly `min(2, |list|, count - |selected|)` names, all from that category's list. Earlier picks stay as a prefix. The pool loses only selected names, and with unique names the selection stays duplicate-free and disjoint from the rest of the pool |
| Sampler.HeavyPass | server.js:141-162 | at most `count` names, at most `2 * (number of Heavy categories)` in total, all from Heavy categories, and with unique names at most two from each Heavy category. The `j`-th Heavy category gives at least `min(2, |list|, count - 2j)`. A short result has `min(2, |list|)` from each Heavy category. The pool loses only selected names, and with unique names the selection is duplicate-free and disjoint from the rest of the pool |
| Sampler.HeavyCapStep | server.js:146-161 | with unique names, one Heavy turn adds at most two names, all its own, so no other category's count changes |
| Sampler.HeavyStep | server.js:142-162 | after the `n`-th Heavy turn both quotas hold for the first `n + 1` Heavy categories, and at most `2(n + 1)` slots are taken |
| Sampler.LightStep | server.js:171-184 | one Light-pass draw selects a name of an unused Light category and marks it used, keeping the pool bookkeeping and, with unique names, the one-per-Light tally |
| Sampler.LightTurn | server.js:171-184 | one Light category's turn adds one name from its list exactly when the list is non-empty, and marks the category used; the bookkeeping and, with unique names, the one-per-Light tally are kept |
| Sampler.LightPass | server.js:164-186 | the Heavy picks stay as a prefix. The `j`-th Light category, when non-empty and `|heavy picks| + j < count`, gives a name. In a short result every non-empty Light category has given a name. Every used Light category has contributed, and with unique names each Light category has contributed exactly one name if used and none otherwise |
| Sampler.LightTurnsTaken | server.js:168-169 | when the Light pass stops, because every category had its turn or the slots ran out, every turn taken while a slot was free has given a name |
| Sampler.FindLightCategory | server.js:196-205 | finds the first Light category that lists the name, or none exactly when no Light category lists it |
| Sampler.DiscardStep | server.js:207-211 | discarding a draw from a used Light category removes it from the pool and keeps the bookkeeping |
| Sampler.AcceptStep | server.js:213-221 | an accepted top-up draw keeps every name admissible and marks its Light category used; with unique names it keeps the selection duplicate-free and the one-per-Light tally |
| Sampler.FillLoop | server.js:188-222 | the top-up keeps earlier picks as a prefix and stays within `count`. A short result has selected every pool name except second names of contributing Light categories. With unique names it is duplicate-free and no Light category gives more than one name |
| Sampler.QuotasKept | server.js:164-222 | the later passes only append, so the Heavy quota and the Light floor met after earlier passes still hold |
| Sampler.SharesKept | server.js:164-222 | the later passes only append, so the turn-order Heavy and Light guarantees met after earlier passes still hold |
| Sampler.SharesWhenRoomy | server.js:142-186 | with `count >= 2 * (number of Heavy categories)`, every Heavy category gets `min(2, |list|)`. With room for one more per Light category, every non-empty Light category gets a name |
| Sampler.QuotaPasses | server.js:141-186 | the Heavy pass then the Light pass: at most `count` names, all admissible, with the Heavy and Light guarantees and the state the top-up loop starts from |
| Sampler.DrawGeneral | server.js:98-225 | the general branch: bound, admissibility, both quota forms, `Filled`, the Light cap and no name from a No category under unique names, `[]` when every category is No |
| Sampler.NoExcludedNames | server.js:126-132 | with unique names, a name drawn from the pool is listed in no category marked No |
| Sampler.FilledLength | server.js:190-222 | with unique names and no Light category, a full top-up yields exactly `min(count, |pool|)` names |
| Sampler.GetRandomStratagems | server.js:59-226 | bound, no duplicates, the Only-branch and general-branch guarantees listed above (including the turn-order Heavy and Light quotas), and `[]` for an empty catalog or when every category is No |
| Sampler.DefaultLoadoutStratagems | server.js:262-267 | the loadout route with all-Normal options and the default count of 4 returns names of the catalog, and with unique names `min(4, |all names|)` distinct ones |
| Reroll.RerollPoolMembership | server.js:404-425 | Only branch: the pool is exactly that category's list. Otherwise it is exactly the names of categories not marked No that are not excluded |
| Reroll.RerollStratagem | server.js:401-436 | not-found exactly when the pool is empty; otherwise a pool member. Outside the Only branch the pick is neither excluded nor from a No category; in the Only branch it is from the Only category |
| Reroll.OnlyRerollRepeatsExcluded | server.js:407-409 | with DEFENSE = ["A"] set to Only and "A" excluded, the pool is ["A"]: the Only branch can return an excluded name |
| Reroll.ExcludingRerollPool | server.js:423-424 | with the exclude filter applied in both branches, no pool name is excluded; the non-Only pool is unchanged |

## Left out

- HTTP routing, `res.json`, status codes, static file hosting and `app.listen`: plumbing around the sampler.
- Reading and parsing `items.json` and `stratagems.json`, and the loader's error fallback: the model takes an already-parsed catalog.
- `console.log` calls: logging only.
- `Math.random` as floating point: modelled as an exact real in `[0, 1)`, with `floor(r * n)` computed exactly.
- Records are identified by their name. The sampler returns the chosen names, and `Catalog.RecordCategory` gives the category the general branch attaches to each record. Icons and other record fields are not modelled. Only-branch records carry no category field; this is not modelled.
- The catalog is a record with exactly the four categories. The source throws in several branches when one of them is missing, and it would treat an extra JSON key as an extra Normal category; neither case is modelled.
- JSON key order: categories are always visited in the order DEFENSE, EAGLES, ORBITALS, SUPPORT. That is the order of the default options, which decides which Only category wins. The catalog's own key order changes the order of the pool, where every index is a possible draw anyway. It also decides which category the name-to-record table keeps for a name listed in two categories: the source keeps the last in the catalog's key order, and the model the last in the fixed order.
- Mode strings other than the five known values behave like Normal in the source. The model has the five modes only.
- The non-stratagem routes (`/api/random/primary` and the others) only call `getRandomItemWithData`, which is modelled; their routing is not.
- The `index` query parameter of the reroll handler is parsed but never used by the pick, so it is not modelled.
- The client scripts (`public/script.js`, `public/service-worker.js`) and the browser tests: user interface, caching and test drivers.
- Sampler.HeavyPass: the turn-order Heavy guarantee assumes two slots taken per earlier Heavy category. When an earlier category has fewer names, the source leaves more room, and the model does not state the exact number.
- Sampler.GetRandomStratagems: the turn-order Heavy and Light guarantees bound the slots taken before a turn by two per earlier Heavy category and one per earlier Light category. When an earlier category has fewer names than that, the source leaves more room than these bounds assume, and the model does not state the exact number.
- Sampler.GetRandomStratagems: the Light cap, the duplicate-freedom and "no name from a No category" are proved only for catalogs with unique names. When names repeat, the source does not guarantee them either.

## Findings

| source | as written | input that shows it | evidently intended | confidence | as-written member | corrected member |
|---|---|---|---|---|---|---|
| server.js:407-425 | in the Only branch the reroll pool is the category's full list; the exclude filter runs only in the other branch | DEFENSE = ["A"] set to Only, exclude = ["A"]: the only possible pick is "A", a duplicate of a visible slot | the handler is meant to return a stratagem "without duplicates" (line 374), so the exclude list should apply in both branches | medium, not executed | Reroll.OnlyRerollRepeatsExcluded | Reroll.ExcludingRerollPool |
