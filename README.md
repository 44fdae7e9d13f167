# httpmock request-matcher helpers in Dafny

This project models the helper layer of httpmock's request matchers
(`src/server/matchers/mod.rs`). When a received request does not match a mock,
the server scores and explains each mismatch with these helpers:

- `distance_for` gives a mismatch score from the Levenshtein edit distance of the
  expected and actual values. `distance_for_vec` and `distance_for_opt` lift it to
  lists and to optional values.
- `parse_cookies` reads the request's first `Cookie` header into a map from
  lower-cased cookie names to values.
- `diff_str` runs a text diff with a tokenizer-specific separator and copies the
  result into the server's serialisable `Diff` form. `diff_str_new` is the plain
  edit distance.

Modules:

- `Wrappers` (`wrappers.dfy`) defines `Option` and `Result`.
- `Levenshtein` (`levenshtein.dfy`) stands in for the `levenshtein` crate. It
  gives the recursive definition of edit distance and proves the facts the score
  depends on: distance to self is 0, distance 0 only for equal strings, the
  distance is at most the longer length and at least the length gap, and it is
  symmetric.
- `Difference` (`difference.dfy`) holds the `difference` crate's
  `Difference`/`Changeset` types.
- `BasicCookies` (`basic_cookies.dfy`) holds the `basic_cookies` crate's cookie
  type.
- `Matchers` (`matchers.dfy`) holds the data model (`Diff`, `Tokenizer`,
  `DetailedDiffResult`, `SimpleDiffResult`, `Mismatch`, the request's headers)
  and the helpers.

The two foreign algorithms are parameters of the functions that call them:
`Changeset::new` is the `changesetNew` argument of `DiffStr`, and `Cookie::parse`
is the `parse` argument of `ParseCookies`. Their contracts hold for every such
function.

The source file is pure, so the model has no classes and no loops. Every helper
is a Dafny function. Rust's iterator chains (`map`/`sum`, `find`, `map`/`collect`
into a `BTreeMap`) become recursions over the sequence. The `BTreeMap` collect
becomes a left fold of map updates, so a later cookie with the same key replaces
an earlier one.

## Model

| member | source | states |
|---|---|---|
| `Matchers.DistanceFor` | src/server/matchers/mod.rs:109-116 | the score is 0 when both strings are empty, 99 when they are equal and non-empty, and 100 when they differ; the subtraction `max_distance - distance` is proved never to go below zero |
| `Matchers.QuotientOfSlack` | src/server/matchers/mod.rs:115 | the integer quotient `(max_distance - distance) / max_distance` is 1 at distance 0 and 0 at every larger distance up to `max_distance` |
| `Levenshtein.Distance` | src/server/matchers/mod.rs:114 | the textbook recursive edit distance over characters (insertions, deletions and substitutions) that stands for `levenshtein::levenshtein`; its contract bounds it by the sum of the two lengths |
| `Levenshtein.DistanceToSelf` | src/server/matchers/mod.rs:114 | the edit distance of a string to itself is 0 |
| `Levenshtein.ZeroDistanceIsEqual` | src/server/matchers/mod.rs:114 | an edit distance of 0 implies the two strings are equal |
| `Levenshtein.ZeroDistanceIff` | src/server/matchers/mod.rs:114 | the edit distance is 0 if and only if the strings are equal |
| `Levenshtein.DistanceAtMostLonger` | src/server/matchers/mod.rs:110-115 | the edit distance never exceeds the longer length, hence never exceeds `max_distance`, the sum of the lengths |
| `Levenshtein.DistanceAtLeastLengthGap` | src/server/matchers/mod.rs:132-134 | the edit distance is at least the difference of the two lengths |
| `Levenshtein.DistanceSymmetric` | src/server/matchers/mod.rs:132-134 | the edit distance does not depend on argument order |
| `Matchers.DistanceForVec` | src/server/matchers/mod.rs:118-120 | the summed score of a list is at most 100 per element, and 0 for the empty list |
| `Matchers.DistanceForVecAppend` | src/server/matchers/mod.rs:118-120 | appending a value adds exactly that value's `distance_for` score to the sum |
| `Matchers.DistanceForVecCount` | src/server/matchers/mod.rs:118-120 | the sum is 100 per element, minus 1 for each copy of the expected value, or minus 100 for each empty value when the expected value is empty |
| `Matchers.DistanceForOpt` | src/server/matchers/mod.rs:122-130 | with an absent value read as the empty string: the score is 0 if and only if both are empty, 99 if and only if both are equal and non-empty, and 100 if and only if they differ |
| `Matchers.AbsentIsEmpty` | src/server/matchers/mod.rs:127-129 | `None` on either side scores exactly like `Some("")`, and two `None`s score 0 |
| `Matchers.ToLower` | src/server/matchers/mod.rs:93 | lower-casing keeps the length, leaves no upper-case letter, changes only upper-case letters (to their lower-case form), and leaves an already lower-case string unchanged |
| `Matchers.FirstCookieHeader` | src/server/matchers/mod.rs:90-95 | it returns the position of a header named `cookie` in any case with no such header before it, and returns nothing exactly when no header has that name |
| `Matchers.FirstCookieHeaderUnique` | src/server/matchers/mod.rs:93 | at most one position is the first cookie header |
| `Matchers.FirstCookieHeaderOfPrefix` | src/server/matchers/mod.rs:92-93 | a header that is the first cookie header stays the first one, at the same position, when more headers are appended |
| `Matchers.CollectCookies` | src/server/matchers/mod.rs:101-104 | every key is lower-case; every cookie's lower-cased name is a key; every key comes from some cookie; each key maps to the value of the last cookie with that lower-cased name |
| `Matchers.ParseCookies` | src/server/matchers/mod.rs:89-107 | with no headers, or no header named `cookie` in any case, the result is `Ok` of an empty map; otherwise the value of the first such header is parsed; a parser error becomes `Err` with its message; a successful parse becomes `Ok` of the collected map; every key of an `Ok` map is lower-case |
| `Matchers.OnlyFirstCookieHeaderCounts` | src/server/matchers/mod.rs:90-95 | once a cookie header is present, appending any further headers, cookie headers included, does not change the result |
| `Matchers.Splitter` | src/server/matchers/mod.rs:42-46 | the separator is at most one character, and is empty exactly for the `Character` tokenizer |
| `Matchers.SplitterInjective` | src/server/matchers/mod.rs:42-46 | the three tokenizers map to three distinct separators (`"\n"`, `" "`, `""`) |
| `Matchers.DifferenceRoundTrip` | src/server/matchers/mod.rs:55-59 | converting an external difference to a local `Diff` keeps its text, and converting back restores the same variant and text |
| `Matchers.FromDifferences` | src/server/matchers/mod.rs:52-60 | the converted list has the same length as the external one, and each element converts back to the external element at the same position |
| `Matchers.DiffStr` | src/server/matchers/mod.rs:41-62 | the result carries the given tokenizer and the diff's distance, computed with that tokenizer's separator; its differences list the external ones in the same order, variant for variant and text for text |
| `Matchers.DiffStrNew` | src/server/matchers/mod.rs:132-134 | the result is 0 exactly for equal strings, at most the longer length, at least the length gap, and independent of argument order |

## Left out

- `Matchers.ToLower`: models Rust's `to_lowercase` on ASCII letters only. Unicode case mappings (including ones that change the length) are not modelled.
- `Matchers.DistanceFor`: `str::len()` counts bytes, but the model counts characters. Byte length is at least the character count, so the byte sum still bounds the edit distance, and the score is the same.
- `Matchers.DistanceFor`, `Matchers.DistanceForVec`: the sums are unbounded naturals, so `usize` overflow is not modelled. The length sum cannot overflow, because each `len()` is at most `isize::MAX`. The score sum can: on a 32-bit target, about 43 million values each scoring 100 exceed `u32::MAX`, which panics in a debug build and wraps in a release build. The model gives the unbounded sum instead.
- `Matchers.DistanceForOpt`: takes the values already rendered with `Display::to_string`. The generic `Display` formatting is foreign code.
- `Matchers.DiffStr`: the diff algorithm `Changeset::new` of the `difference` crate is a parameter. What it computes is not modelled, so the contract holds for any diff function.
- `Matchers.ParseCookies`: the cookie grammar `Cookie::parse` of the `basic_cookies` crate is a parameter, and its error is given as the message `to_string` would produce. Because lower-casing is ASCII only, header and cookie names with non-ASCII letters are matched and keyed differently from the source (a header named `COO\u{212A}IE`, with the Kelvin sign, is a cookie header in the source but not in the model). A request is modelled by its optional header list only. Its path, method, query and body are not read by this helper.
- `Levenshtein`: the crate's algorithm is replaced by the textbook recursive definition of edit distance. Both compute the same distance; the crate's iterative implementation is not modelled.
- The `Matcher` trait (src/server/matchers/mod.rs:81-84): it has no implementation in the modelled file, so there is no behaviour to state.
- `SimpleDiffResult` and `Mismatch`: modelled as plain datatypes. No helper in the modelled file builds or reads them.
- Serde derives on `Diff`, `Mismatch`, `SimpleDiffResult` and `DetailedDiffResult`: serialisation only. The types are modelled as datatypes.
- `src/api/adapter.rs`: HTTP client plumbing, a thread-local async runtime, JSON serialisation, and a local adapter over server handlers that are not part of this model.
