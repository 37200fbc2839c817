# Candidate keys from functional dependencies

A Dafny model of `RDBMS/RDBMSIA2.cpp`: a small relational-database utility
that reads functional dependencies written as `lhs->rhs` strings, computes
attribute-set closures, and searches the attribute universe for keys.

The model follows the four functions of the program other than `main`:

- `splitAttributes` becomes `Attributes.SplitAttributes`. It keeps the
  `getline(…, ',')` semantics: every comma ends a field, possibly an empty
  one; a final empty field is dropped; the empty text has no field. Nothing is
  trimmed. The field scan is `Attributes.Fields`, and the program's output
  format (each attribute followed by a comma) is `Attributes.Terminated`.
  Splitting a `Terminated` list of comma-free tokens gives the same tokens
  back. Writing the fields of a text with `Terminated` gives the text back,
  with a comma appended unless the text is empty or already ends with one.
- `parseFDs` becomes `Parse.ParseFDs`. Each string is cut at the first `->`
  (`Parse.FindArrow`), and a string without one is skipped. Sides are never
  checked for emptiness.
- `closure_iterative` has two forms. `Closures.Closure` is the recursive
  reference definition, terminating on the attributes still missing from the
  union of all right sides. The methods `Closures.InsertAll`,
  `Closures.RunPass` and `Closures.ClosureIterative` follow the program's three
  nested loops and are proved equal to it. The closure is the least closed
  superset of its argument.
- `findCandidateKeys` becomes `Keys.FindCandidateKeys`. It is proved to return
  exactly `Keys.CandidateKeys`: the non-empty subsets of the universe whose
  closure is the universe.

The program's own sample, `{"A->B", "B->C", "CD->E"}`, is worked out in
module `Example`. The sample is proved for any five distinct attributes first
and then instantiated.

Two points where the code and a textbook reading differ, modelled as the code
does it:

- Attributes are split on commas only, so `"CD->E"` has the single attribute
  `CD` on its left, not `C` and `D`. The sample's universe is therefore
  `{A, B, C, CD, E}`. Its result is the eight supersets of `{A, CD}` within
  that universe.
- The search has no minimality filter (see Findings). A textbook reading
  expects only minimal keys, here `{A, CD}`. The code returns every non-empty
  superkey.

An input from which no dependency parses has an empty universe. The search
then returns the empty set of keys and never the empty key.

## Model

| member | source | states |
|---|---|---|
| Attributes.FieldEnd | RDBMS/RDBMSIA2.cpp:16 | one `getline` call scanning from a position stays within the text; where it stops is given by `Attributes.FieldEndStops` and `Attributes.FieldEndAt` |
| Attributes.FieldLength | RDBMS/RDBMSIA2.cpp:16 | the first field of the text is no longer than the text; its content is given by `Attributes.FieldStopsAtComma` |
| Attributes.FieldStopsAtComma | RDBMS/RDBMSIA2.cpp:16 | a field extracted by `getline` holds no comma and ends at the first comma or at the end of the text |
| Attributes.FieldEndStops | RDBMS/RDBMSIA2.cpp:16 | the scan from any position stops at the first comma at or after it, or at the end |
| Attributes.FieldEndAt | RDBMS/RDBMSIA2.cpp:16 | any comma-free stretch that ends at a comma or at the end of the text is exactly what the scan extracts |
| Attributes.Fields | RDBMS/RDBMSIA2.cpp:16-18 | the `getline` loop extracts no field exactly when the text is empty; `Attributes.FieldsOfTerminated` and `Attributes.TerminatedOfFields` give which fields it extracts |
| Attributes.SplitAttributes | RDBMS/RDBMSIA2.cpp:12-20 | no attribute holds a comma; the empty text gives no attribute; a non-empty comma-free text is the single attribute it spells |
| Attributes.FieldsCommaFree | RDBMS/RDBMSIA2.cpp:16-17 | every field inserted by the loop is comma-free |
| Attributes.FieldsOfCommaFree | RDBMS/RDBMSIA2.cpp:16-17 | a non-empty text without a comma is read as exactly one field |
| Attributes.FieldLengthCommaFree | RDBMS/RDBMSIA2.cpp:16 | in a comma-free text the first field runs to the end |
| Attributes.FieldLengthOfTerminated | RDBMS/RDBMSIA2.cpp:16 | a comma-free token followed by a comma is read as that token |
| Attributes.FieldsOfTerminated | RDBMS/RDBMSIA2.cpp:12-20 | splitting comma-free tokens written each with a trailing comma gives back the same tokens in order, empty ones included |
| Attributes.TerminatedOfFields | RDBMS/RDBMSIA2.cpp:12-20 | writing the fields back with trailing commas rebuilds the text, adding a comma unless the text is empty or already ends with one; so only the empty text after a final comma is lost |
| Attributes.TerminatedOfFirstField | RDBMS/RDBMSIA2.cpp:16-17 | the inductive step over the `getline` loop: if the text after the first comma is written back as the round trip says, so is the whole text |
| Attributes.TerminatedOfLastField | RDBMS/RDBMSIA2.cpp:16-17 | a non-empty text with no comma is written back as itself plus one comma |
| Attributes.TrailingCommaDropped | RDBMS/RDBMSIA2.cpp:16 | one comma appended to a text that does not end with a comma adds no field: the empty text after a final comma is not extracted |
| Attributes.SplitTerminated | RDBMS/RDBMSIA2.cpp:12-20 | the attribute set of comma-terminated comma-free tokens is exactly the set of those tokens |
| Parse.FindArrow | RDBMS/RDBMSIA2.cpp:26-27 | `find("->")` gives nothing exactly when the string has no marker, and otherwise gives the position of the first marker |
| Parse.ParseFD | RDBMS/RDBMSIA2.cpp:26-30 | a string yields a dependency exactly when it contains `->`, and no parsed attribute holds a comma |
| Parse.ParseAtFirstArrow | RDBMS/RDBMSIA2.cpp:26-29 | the left side is the text before the first marker, and the right side is everything after it, later markers included |
| Parse.ParseSimple | RDBMS/RDBMSIA2.cpp:26-29 | `l->r`, with `l` and `r` non-empty and comma-free and no marker inside `l`, parses to the dependency `{l} -> {r}` |
| Parse.DashFreeHasNoArrow | RDBMS/RDBMSIA2.cpp:26 | a text without `-` holds no marker, so `find("->")` gives `npos` on it |
| Parse.ParseFDs | RDBMS/RDBMSIA2.cpp:23-34 | the output has at most as many dependencies as the input has strings |
| Parse.ParseFDsMembers | RDBMS/RDBMSIA2.cpp:25-31 | a dependency is in the output exactly when some input string parses to it |
| Parse.ParseFDsAppend | RDBMS/RDBMSIA2.cpp:25-32 | parsing keeps the order of the input: the output for a concatenation is the concatenation of the outputs |
| Parse.SkipsUnmarked | RDBMS/RDBMSIA2.cpp:27 | a string without a marker contributes nothing, wherever it stands |
| Parse.ParseFDsCount | RDBMS/RDBMSIA2.cpp:25-32 | the output is as long as the input exactly when every string contains a marker |
| Schema.Universe | RDBMS/RDBMSIA2.cpp:66-69 | the universe contains every attribute that a dependency can add |
| Schema.UniverseMembers | RDBMS/RDBMSIA2.cpp:66-69 | an attribute is in the universe exactly when it is on either side of a parsed dependency |
| Schema.AllRhsMembers | RDBMS/RDBMSIA2.cpp:46-48 | an attribute can be added exactly when it is on the right side of some dependency |
| Closures.Fire | RDBMS/RDBMSIA2.cpp:44-51 | one dependency only inserts, and only its right side; when its left side is included the whole right side is inserted, and otherwise nothing changes |
| Closures.Pass | RDBMS/RDBMSIA2.cpp:42-53 | a pass only inserts, and only attributes of right sides |
| Closures.PassFixedIffClosed | RDBMS/RDBMSIA2.cpp:40-54 | a pass leaves `changed` false exactly when the set is already closed under every dependency |
| Closures.PassStaysBelow | RDBMS/RDBMSIA2.cpp:42-53 | a pass never leaves a closed superset of where it started |
| Closures.Closure | RDBMS/RDBMSIA2.cpp:37-56 | the closure contains `X`, adds only attributes of right sides, and is closed under every dependency |
| Closures.ClosureLeast | RDBMS/RDBMSIA2.cpp:37-56 | the closure is contained in every closed superset of `X`, so it is the least one |
| Closures.ClosureMonotone | RDBMS/RDBMSIA2.cpp:37-56 | a larger starting set never has a smaller closure |
| Closures.ClosureIdempotent | RDBMS/RDBMSIA2.cpp:37-56 | closing a closure changes nothing |
| Closures.ClosureOfClosed | RDBMS/RDBMSIA2.cpp:38-40 | the closure equals `X` exactly when `X` is closed; with no dependencies it always does |
| Closures.EmptyLhsFires | RDBMS/RDBMSIA2.cpp:44 | a dependency with an empty left side always fires, because `includes` of an empty range holds |
| Closures.ClosureIgnoresOrder | RDBMS/RDBMSIA2.cpp:42 | the closure depends only on which dependencies are listed, not on their order or repetition |
| Closures.InsertAll | RDBMS/RDBMSIA2.cpp:46-51 | the inner loop inserts the whole right side and reports an insertion exactly when some attribute was missing |
| Closures.RunPass | RDBMS/RDBMSIA2.cpp:41-53 | the `for` loop performs one pass and sets `changed` exactly when the set grew |
| Closures.ClosureIterative | RDBMS/RDBMSIA2.cpp:37-56 | the loop terminates with a closed superset of `X` that equals the reference closure |
| Keys.IsKey | RDBMS/RDBMSIA2.cpp:84-87 | the test that keeps a subset: non-empty, inside the universe, and closing to the universe |
| Keys.CandidateKeys | RDBMS/RDBMSIA2.cpp:71-91 | the set that the search returns: every subset of the universe that passes the keep test |
| Keys.CollectAttributes | RDBMS/RDBMSIA2.cpp:64-69 | the loop collects exactly the universe: both sides of every parsed dependency |
| Keys.KeepKeysOfSize | RDBMS/RDBMSIA2.cpp:73-89 | after round `i` the kept sets are exactly the keys with at most `i` attributes |
| Keys.FindCandidateKeys | RDBMS/RDBMSIA2.cpp:59-92 | the result holds exactly the non-empty subsets of the universe whose closure is the universe, and equals `Keys.CandidateKeys`: sound and complete |
| Keys.KeysUpwardClosed | RDBMS/RDBMSIA2.cpp:86-87 | any subset of the universe that contains a returned key is itself returned |
| Keys.KeyContainsMinimalKey | RDBMS/RDBMSIA2.cpp:86-87 | every returned key contains a minimal key |
| Keys.KeysAreSupersetsOfMinimalKeys | RDBMS/RDBMSIA2.cpp:86-87 | a set is returned exactly when it lies in the universe and contains a minimal key |
| Keys.UniverseIsKey | RDBMS/RDBMSIA2.cpp:71-88 | the whole universe is returned exactly when it is non-empty |
| Keys.NoParsedDependenciesNoKeys | RDBMS/RDBMSIA2.cpp:64-71 | when no string has a marker, nothing is parsed, the universe is empty and the result is empty |
| Keys.EmptyUniverseNoKeys | RDBMS/RDBMSIA2.cpp:64-71 | whenever the parsed dependencies name no attribute the result is empty, also for strings that parse but name nothing |
| Keys.KeysIgnoreOrder | RDBMS/RDBMSIA2.cpp:59-61 | the result depends only on which strings are given, so a sequence may stand for the input `set<string>` |
| Keys.NothingSmallerIsMinimal | RDBMS/RDBMSIA2.cpp:86-87 | a key that contains no smaller minimal key is minimal |
| Keys.KeepMinimalKeysOfSize | RDBMS/RDBMSIA2.cpp:73-89 | with the minimality filter, after round `i` the kept sets are exactly the minimal keys with at most `i` attributes |
| Keys.FindMinimalKeys | RDBMS/RDBMSIA2.cpp:59-92 | the search with the minimality filter returns exactly `Keys.MinimalKeys`: the keys none of whose proper subsets is a key |
| Example.ChainUniverse | RDBMS/RDBMSIA2.cpp:96 | the universe of `a->b`, `b->c`, `cd->e` is `{a, b, c, cd, e}` |
| Example.ChainSmallestKey | RDBMS/RDBMSIA2.cpp:96 | `{a, cd}` closes to the whole universe |
| Example.ChainClosedWithout | RDBMS/RDBMSIA2.cpp:96 | the universe without `a`, or without `cd`, is closed |
| Example.ChainKeyCase | RDBMS/RDBMSIA2.cpp:96 | a subset of the universe is a key exactly when it contains `a` and `cd` |
| Example.ChainKeys | RDBMS/RDBMSIA2.cpp:96 | the keys are exactly the sets between `{a, cd}` and the universe |
| Example.ChainMinimalKeys | RDBMS/RDBMSIA2.cpp:96 | `{a, cd}` is the only minimal key |
| Example.ChainNonMinimalKey | RDBMS/RDBMSIA2.cpp:96 | `{a, b, cd}` is a key but not a minimal one |
| Example.ParseThree | RDBMS/RDBMSIA2.cpp:25-31 | three strings that each parse give their three dependencies in order |
| Example.ChainParse | RDBMS/RDBMSIA2.cpp:25-31 | `a->b`, `b->c`, `cd->e` over non-empty comma-free names, with no `-` in the left names `a`, `b` and `cd`, parse to those three dependencies, in order |
| Example.SampleNames | RDBMS/RDBMSIA2.cpp:96 | the sample strings are `A->B`, `B->C` and `CD->E`, whose names are single tokens with no `,` |
| Example.SampleParse | RDBMS/RDBMSIA2.cpp:96 | the sample parses to `{A} -> {B}`, `{B} -> {C}`, `{CD} -> {E}`, with `CD` one attribute |
| Example.BareArrow | RDBMS/RDBMSIA2.cpp:26-30 | the string `->` parses, to a dependency with two empty sides, and gives no key |
| Example.SampleResult | RDBMS/RDBMSIA2.cpp:96-99 | the sample's result is exactly the eight sets between `{A, CD}` and `{A, B, C, CD, E}` |
| Example.SampleHasNonMinimalKey | RDBMS/RDBMSIA2.cpp:86-87 | on the sample, the search returns `{A, B, CD}`, which is not a minimal key |
| Example.SampleMinimalKeys | RDBMS/RDBMSIA2.cpp:96 | the sample's only minimal key is `{A, CD}` |

## Left out

- `main` (RDBMS/RDBMSIA2.cpp:94-115) is console output only. Its per-attribute comma format is modelled as `Attributes.Terminated`, and nothing is printed.
- The `vector<bool>` bitmask and `prev_permutation` enumeration (lines 73-89) are abstracted to the set of all subsets of the universe of the current size, `Keys.SubsetsOfSize`. Each round takes its subsets in an arbitrary order. The order cannot matter because the result is a set.
- `stringstream` and `getline` are modelled as the pure function `Attributes.Fields` with the same field boundaries; stream state is not modelled.
- The input `set<string>` is a `seq<string>` in iteration order. `Keys.KeysIgnoreOrder` shows that only the strings present matter, so sorting and duplicate removal by `std::set` need no model.
- `std::string` holds bytes and Dafny `string` holds characters, so text that is not valid UTF-8 cannot be represented. Splitting on `,` and cutting at `->` act the same on either.
- The loop counter `int i` compared with `size_t` (line 71) is an unbounded integer; attribute counts beyond `INT_MAX` are not modelled.

## Findings

| source | as written | input that shows it | evidently intended | confidence | as-written member | corrected member |
|---|---|---|---|---|---|---|
| RDBMS/RDBMSIA2.cpp:86-87 | every subset whose closure is the universe is inserted, so superkeys that contain a smaller key are returned as candidate keys | `{"A->B", "B->C", "CD->E"}` returns `{A, B, CD}` (and seven other sets), which contains the key `{A, CD}` | only minimal keys, as the name `findCandidateKeys` says: a superkey that contains an already accepted key is rejected | medium, not executed | Example.SampleHasNonMinimalKey | Keys.FindMinimalKeys |
