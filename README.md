# Category store of mybudgettracker, modelled in Dafny

The budget tracker keeps the user's spending categories in the `useCategories`
hook (`hooks/useCategories.ts`). Each category has an `id`, a display `name` and
an ordered list of `subcategories`. The hook holds the list in memory. The list
is `null` until the load effect has run. The hook persists the list as JSON
under the key `@mbt:categories` of an MMKV key-value store.

The load effect has three outcomes:

- Nothing usable is stored (absent, or the empty string). Five default
  categories are installed and written to storage.
- The stored text parses. The parsed list is installed.
- The stored text does not parse. The defaults are installed and storage is
  left as it is.

There are four mutators: `addCategory`, `addSubcategory`, `removeCategory` and
`removeSubcategory`. Each one does nothing before the list is loaded. Otherwise
it computes the next list, installs it in memory and then tries to write it;
a failed write is ignored.

The project has five modules:

- `Wrappers` (`wrappers.dfy`): `Option`.
- `Slug` (`slug.dfy`): the id rule of `addCategory`. It lower-cases the name,
  then replaces each maximal run of characters outside `[a-z0-9]` with one
  `-`. Proved: the result has only `[a-z0-9-]` and no `--`; it keeps the
  name's letters and digits in order; a run after a letter or digit becomes
  exactly one `-`, and a leading or trailing run becomes a `-` (nothing is
  trimmed); the rule is idempotent; and a string is its own id exactly when
  it already has that shape.
- `Categories` (`categories.dfy`): the `Category` record, the defaults, and
  the four next-state functions. Each function is stated element by element
  and related to the others by lemmas: removing right after adding gives the
  same list as removing alone, removal is idempotent, and which operations
  can create duplicate ids.
- `Codec` (`codec.dfy`): the JSON text `JSON.stringify` writes for a category
  list, and a decoder for it. The encoder escapes strings as `JSON.stringify`
  does (`\"`, `\\`, `\b`, `\t`, `\n`, `\f`, `\r`, and lower-case `\u00xx` for
  other control characters). The decoder accepts exactly the encoder's
  output. Proved: `Decode(s) == Some(cs)` holds exactly when
  `s == Encode(cs)`.
- `Store` (`store.dfy`): the class `CategoryStore` with two fields: the
  nullable list (`categories`) and the key-value contents (`storage`). It has
  the load effect, `persist` and the four mutators as methods. The outcome of
  each storage write is a `writeOk` parameter. `Synced()` says memory equals
  what storage decodes to. Every successful write establishes it. A fallback
  load (text that does not parse) leaves it false.

Two behaviours of the code that are easy to miss, both modelled as written:

- The id rule does not trim. A trailing run of other characters becomes a
  final `-`, so `"Health & Wellness!"` gets the id `"health-wellness-"`.
- `addSubcategory` and `removeSubcategory` use `map`, so every category with
  the given id changes, not only the first one.

## Model

| member | source | states |
|---|---|---|
| Slug.DeriveId | hooks/useCategories.ts:51 | the id has only `[a-z0-9-]` and no two consecutive `-`; it is no longer than the name, empty only for an empty name; a name whose first or last character is not a letter or digit gives an id starting or ending with `-` (no trimming) |
| Slug.Collapse | hooks/useCategories.ts:51 | replacing every maximal run outside `[a-z0-9]` by one `-`: a letter or digit at either end is kept, a run at either end becomes `-`, the result has id shape |
| Slug.DeriveIdKeepsAlnums | hooks/useCategories.ts:51 | the id holds exactly the lower-cased name's letters and digits, in order |
| Slug.DeriveIdIdempotent | hooks/useCategories.ts:51 | applying the rule to an id returns the same id |
| Slug.DeriveIdFixedPoints | hooks/useCategories.ts:51 | a string is its own id if and only if it has id shape |
| Slug.CollapseFixed | hooks/useCategories.ts:51 | collapsing leaves a string unchanged if and only if it has id shape |
| Slug.DeriveIdTravel | hooks/useCategories.ts:51 | the name `Travel` gets the id `travel` |
| Slug.CollapseSplit | hooks/useCategories.ts:51 | the replacement works piece by piece across any point that follows a letter or digit |
| Slug.CollapseRun | hooks/useCategories.ts:51 | a run of characters outside `[a-z0-9]` after a letter or digit becomes exactly one `-`, whether a letter or digit or the end of the text follows |
| Slug.DeriveIdRun | hooks/useCategories.ts:51 | in a name, such a run between a letter or digit and the next letter, digit or end of name gives one `-` in the id, and the parts on either side are derived independently |
| Slug.DeriveIdOfWord | hooks/useCategories.ts:51 | a name whose lower-cased form is letters and digits only gets exactly that lower-cased form as its id |
| Slug.DeriveIdHealth | hooks/useCategories.ts:51 | the name `Health & Wellness!` gets the id `health-wellness-`: the inner run becomes one `-` and the trailing `!` a final `-` |
| Categories.DefaultCategoriesShape | hooks/useCategories.ts:14-20 | the defaults are five categories with ids `fixed`, `food`, `transport`, `shopping`, `fitness` in that order, distinct and already in id shape |
| Categories.AddedCategory | hooks/useCategories.ts:51-52 | the next list is the old list unchanged plus one last element `{id: DeriveId(name), name, subcategories: []}`, whether or not that id already exists |
| Categories.AddedCategoryUniqueIds | hooks/useCategories.ts:51-52 | after `addCategory` the ids are distinct if and only if they were before and the derived id was new; a colliding name is appended anyway |
| Categories.Filter | hooks/useCategories.ts:64 | `filter`: the result holds exactly the kept elements, as many as the input has, as a subsequence of the input |
| Categories.FilterExactly | hooks/useCategories.ts:64 | `filter` returns the one subsequence that holds only kept elements and all of them |
| Categories.UpdateMatching | hooks/useCategories.ts:58 | mapping over the list: same length, ids and names; every category with the id gets its subcategories updated; every other category is unchanged |
| Categories.AddedSubcategory | hooks/useCategories.ts:58 | ids, order and names are kept; every category with the id gets `sub` appended last; every other category is unchanged |
| Categories.AddedSubcategoriesInOrder | hooks/useCategories.ts:58 | adding `a` then `b` to a category leaves its subcategories as the old ones followed by `a`, `b` |
| Categories.RemovedCategory | hooks/useCategories.ts:64 | the result holds exactly the categories whose id differs, as a subsequence of the input, and no category with the id |
| Categories.RemovedCategoryExactly | hooks/useCategories.ts:64 | a list is the result of `removeCategory` if and only if it is a subsequence of the old list, holds no category with the id, and has as many elements as the old list has with another id |
| Categories.Without | hooks/useCategories.ts:70 | the subcategories other than `sub`, in order, with every occurrence of `sub` gone |
| Categories.WithoutExactly | hooks/useCategories.ts:70 | a list is the inner filter's result if and only if it is a subsequence without `sub` holding all the other entries |
| Categories.RemovedSubcategory | hooks/useCategories.ts:70 | ids, order and names are kept; every category with the id loses every occurrence of `sub`; every other category is unchanged |
| Categories.NoMatchUnchanged | hooks/useCategories.ts:56-72 | when no category has the id, the subcategory mutators and `removeCategory` return the list unchanged |
| Categories.MutatorsKeepUniqueIds | hooks/useCategories.ts:56-72 | `addSubcategory`, `removeCategory` and `removeSubcategory` never create an id collision |
| Categories.SubsequenceUniqueIds | hooks/useCategories.ts:64 | leaving categories out of a list with distinct ids keeps the ids distinct |
| Categories.RemovedCategoryAfterAdded | hooks/useCategories.ts:49-66 | adding a category and then removing its id gives the same list as removing the id alone |
| Categories.RemovedCategoryAfterAddedSubcategory | hooks/useCategories.ts:56-66 | removing a category also discards the subcategories just added to it |
| Categories.RemovedSubcategoryAfterAdded | hooks/useCategories.ts:56-72 | removing a subcategory after adding it gives the same list as removing it alone |
| Categories.RemovalsIdempotent | hooks/useCategories.ts:62-72 | removing a category, or a subcategory, twice is the same as removing it once |
| Codec.Encode | hooks/useCategories.ts:32 | the stored text is never empty: it is a `[`…`]` array |
| Codec.StringRoundTrip | hooks/useCategories.ts:29 | a string is read back from its JSON encoding, whatever text follows |
| Codec.StringCanonical | hooks/useCategories.ts:29 | the string reader accepts only text the encoder writes |
| Codec.CategoryRoundTrip | hooks/useCategories.ts:29 | a category object `{"id":…,"name":…,"subcategories":[…]}` is read back from its encoding |
| Codec.CategoryCanonical | hooks/useCategories.ts:29 | the category reader accepts only text the encoder writes |
| Codec.Decode | hooks/useCategories.ts:29 | `JSON.parse` of the stored text: a list is returned only for text that is exactly that list's encoding |
| Codec.DecodeEncode | hooks/useCategories.ts:29-43 | parsing what was stringified gives back the same list |
| Codec.DecodeExactly | hooks/useCategories.ts:29-43 | the stored text parses to a list if and only if it is that list's encoding |
| Store.Read | hooks/useCategories.ts:27 | `getString` gives a value exactly when the key is present, and that value is the stored text |
| Store.AfterWrite | hooks/useCategories.ts:43 | a successful `set` stores the list's encoding under the key, which decodes back to the list; a failed one changes nothing; no other key is added, removed or changed |
| Store.Classify | hooks/useCategories.ts:27-37 | the load seeds the defaults exactly when the stored value is absent or empty; a restored list is one whose encoding is the stored text |
| Store.ClassifyCases | hooks/useCategories.ts:27-37 | the load seeds the defaults if and only if the stored value is absent or empty; it restores a list if and only if the stored text is that list's encoding; and it falls back if and only if the text is non-empty and encodes no list |
| Store.ReloadPersisted | hooks/useCategories.ts:29-43 | after a successful write of a list, the next load restores exactly that list |
| Store.CategoryStore.constructor | hooks/useCategories.ts:23 | a new store has no list loaded yet and keeps the given storage |
| Store.CategoryStore.Load | hooks/useCategories.ts:25-38 | absent or empty value: memory and storage both become the defaults (storage only if the write succeeds); a parsed value becomes memory and storage is unchanged; a value that does not parse: memory becomes the defaults and storage is unchanged, and memory and storage then disagree |
| Store.CategoryStore.Persist | hooks/useCategories.ts:40-47 | memory becomes `next` whether or not the write succeeds; a successful write stores `next`'s encoding under the one key, which the next load restores; a failed write leaves storage unchanged |
| Store.CategoryStore.AddCategory | hooks/useCategories.ts:49-54 | no-op on an unloaded store; otherwise persists `AddedCategory` of the current list |
| Store.CategoryStore.AddSubcategory | hooks/useCategories.ts:56-60 | no-op on an unloaded store; otherwise persists `AddedSubcategory` of the current list, even when no category matches |
| Store.CategoryStore.RemoveCategory | hooks/useCategories.ts:62-66 | no-op on an unloaded store; otherwise persists `RemovedCategory` of the current list |
| Store.CategoryStore.RemoveSubcategory | hooks/useCategories.ts:68-72 | no-op on an unloaded store; otherwise persists `RemovedSubcategory` of the current list |

## Left out

- React machinery (`useState`, `useEffect`, re-rendering): the store is one object. The first render is the constructor and the effect is `Load`. `Load` can be called again, although React runs it once.
- The MMKV engine: storage is a `map<string, string>`. Only `@mbt:categories` is ever written. A write's success or failure is the `writeOk` parameter.
- Read errors: the model treats `getString` as total. In the source an exception from the read would land in the same `catch` and install the defaults.
- `JSON.parse` on text the encoder did not write (white space, other key orders, extra or missing fields, non-array values such as `null`): the model's decoder rejects all of it, so such a stored value takes the fallback path. In the source, `null` would leave the list unloaded, and values without the expected fields would be installed unchecked.
- Codec.Encode: does not model `JSON.stringify`'s escaping of lone surrogates, because Dafny characters are Unicode scalar values and cannot hold one.
- Slug.DeriveId: lower-cases ASCII `A`–`Z` only. The source's Unicode `toLowerCase` maps a few other characters into `[a-z]` (for example the Kelvin sign to `k`), and the model does not.
- Several hook instances racing on the same key: the model has a single store.
- The screens (`app/income.tsx`, `app/expense.tsx`, `app/add-categories.tsx`, `app/(tabs)/*`, `app/_layout.tsx`) and `styles/global-styles.ts`. Their logic is UI, navigation, date formatting, floating-point amount parsing and style scaling. The trim-and-non-empty check that `app/add-categories.tsx` applies before calling the store is a caller's guard; the store itself accepts any name, and so does the model.
