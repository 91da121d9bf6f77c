# Version-tag allocator of the notebook helpers

This project models, in Dafny, the version-numbering helpers of the
notebook support module `helper/useful_fns.py`. A model in the model
registry, or a dataset in the dataset store, carries version tags of the
form `<prefix>_<n>` (`"V_1"`, `"V_2"`, `"MY_MODEL_3"`). Three helpers work
out which tag to use next, or which one is the latest:

- `check_and_update(df, model_name)` takes the registry's `show_models`
  table. It keeps only the text after the last "." of a qualified model
  name. If the table is empty or has no row with that name, it answers
  `"V_1"`. Otherwise it pools the tags of every row of the table, sorts
  them as strings, splits the greatest one on its last `_`, and answers the
  prefix followed by the number plus one.
- `dataset_check_and_update(session, name)` looks a dataset up. It answers
  `"V_1"` when the dataset does not exist or has no versions. Otherwise it
  applies the same greatest-tag-plus-one rule to the dataset's versions.
- `get_latest(df, model_name)` compares the whole name with no stripping. It
  answers `"V_1"` in the same two cases. Otherwise it sorts the FIRST row's
  tags, splits the greatest one, and renders it again without incrementing.
  So leading zeros are dropped: `"V_007"` comes back as `"V_7"`.

The tags are compared as strings, not as numbers, so `"V_2"` ranks above
`"V_10"`. The docstring of `check_and_update`
(helper/useful_fns.py:30-31) promises "the next version number", which reads
as the numeric maximum plus one. The model follows the code: it sorts strings
(see "## Findings").

The helpers raise an exception instead of returning in three cases. The
model returns these as `Err` values of a `Result`:
- `NoUnderscore`: the greatest tag has no `_`, so unpacking `rsplit` fails.
- `NonIntegerSuffix`: the text after its last `_` is not a number, so `int`
  fails.
- `EmptyVersionList`: there is no tag to take, so `lst[-1]` fails.

Modules:
- `Wrappers` holds `Option` and `Result`.
- `PyText` models the Python string builtins used here: `split(".")[-1]`,
  `rsplit("_", 1)`, `int` on a digit string and `str` of a natural number.
- `PyOrder` models Python's string order and `sorted`, and proves that the
  last element after sorting is the greatest one.
- `VersionTags` holds the tag value type, parsing and rendering, and the
  "next" and "latest" rules.
- `UsefulFns` holds the three helpers over a table `seq<Row>` and a dataset
  lookup `Option<seq<string>>`.

## Model

| member | source | states |
|---|---|---|
| `PyText.LastSegment` | helper/useful_fns.py:35-36 | `split(sep)[-1]` is the longest suffix without `sep`: it holds no `sep`, a `sep` stands just before it when it is shorter than the input, and it is the whole input exactly when `sep` does not occur |
| `PyText.LastSegmentAfterSeparator` | helper/useful_fns.py:35-36 | the text after the last separator of `p + sep + q` is `q` when `q` has no separator |
| `PyText.RSplitLast` | helper/useful_fns.py:52 | `rsplit(sep, 1)` unpacks into two names exactly when `sep` occurs; the two parts then rejoin around `sep` to the input, and the second part holds no `sep` |
| `PyText.RSplitJoin` | helper/useful_fns.py:52-53 | splitting `p + sep + q` on its last separator gives back `(p, q)` even when `p` holds separators |
| `PyText.ParseNat` | helper/useful_fns.py:53 | `int(num)` succeeds exactly on a non-empty string of decimal digits |
| `PyText.NatToString` | helper/useful_fns.py:53 | `str(n)` is a string of decimal digits with no leading zero |
| `PyText.ParseNatToString` | helper/useful_fns.py:53 | `int(str(n)) == n` for every natural number |
| `PyText.NatToStringOfDecimal` | helper/useful_fns.py:99 | `str(int(s)) == s` exactly when the digit string `s` has no leading zero |
| `PyOrder.LexLe` | helper/useful_fns.py:50 | Python's `<=` on strings, code point by code point: a prefix sorts at or before every extension of it, and `a <= b` for a non-empty `a` needs a non-empty `b` whose first character is at least `a`'s |
| `PyOrder.LexLeReflexive` | helper/useful_fns.py:50 | Python's string order is reflexive |
| `PyOrder.LexLeAntisymmetric` | helper/useful_fns.py:50 | two strings each at most the other are equal |
| `PyOrder.LexLeTransitive` | helper/useful_fns.py:50 | Python's string order is transitive |
| `PyOrder.LexLeTotal` | helper/useful_fns.py:50 | any two strings are comparable |
| `PyOrder.Insert` | helper/useful_fns.py:50 | inserting into a sorted list keeps it sorted and adds exactly that element |
| `PyOrder.Sort` | helper/useful_fns.py:50 | `sorted(s)` is in ascending string order and is a permutation of `s` |
| `PyOrder.Greatest` | helper/useful_fns.py:50-51 | `sorted(s)[-1]` of a non-empty list is a member of the list that no member exceeds |
| `PyOrder.GreatestUnique` | helper/useful_fns.py:50-51 | any member that no member exceeds is `sorted(s)[-1]` |
| `PyOrder.GreatestOfSameMembers` | helper/useful_fns.py:50-51 | `sorted(s)[-1]` depends only on which strings occur, not on their order or repetition |
| `VersionTags.ParseTag` | helper/useful_fns.py:52-53 | `rsplit("_", 1)` then `int(num)`: the only failures are the unpacking error and the integer error, and the unpacking error happens exactly when the tag has no `_` |
| `VersionTags.Render` | helper/useful_fns.py:53 | `f"{prefix}_{num}"`: the text after the rendered tag's last `_` is the number in decimal |
| `VersionTags.ParseTagCases` | helper/useful_fns.py:52-53 | parsing a tag fails on unpacking exactly when it has no `_`, fails on `int` exactly when the text after its last `_` is not decimal, and otherwise gives the text before the last `_` and the value of the digits after it |
| `VersionTags.ParseRender` | helper/useful_fns.py:52-53 | rendering `prefix_n` and parsing it back gives the same prefix and number |
| `VersionTags.RenderParse` | helper/useful_fns.py:98-99 | re-rendering a parsed tag reproduces it exactly when its number has no leading zero |
| `VersionTags.GreatestTag` | helper/useful_fns.py:50-52 | an empty list is the index error and nothing else is; otherwise the greatest tag is parsed |
| `VersionTags.NextVersion` | helper/useful_fns.py:50-53 | the next tag fails exactly when taking or parsing the greatest tag fails, with that error; otherwise it parses to the greatest tag's prefix with its number plus one, and the number after its last `_` is written without leading zeros |
| `VersionTags.Latest` | helper/useful_fns.py:96-99 | the latest tag fails exactly when taking or parsing the greatest tag fails; otherwise it parses to the same tag as the greatest tag, and is that very string exactly when its number has no leading zero; the number in the result is always written without leading zeros |
| `VersionTags.GreatestTagIgnoresOrder` | helper/useful_fns.py:50-52 | the parsed greatest tag depends only on which tags occur |
| `VersionTags.RulesIgnoreOrder` | helper/useful_fns.py:50-53 | the next and latest tags depend only on which tags occur, not on their order |
| `VersionTags.NextVersionIsSuccessorOfGreatest` | helper/useful_fns.py:50-53 | a next tag is the successor of a listed tag that no listed tag exceeds |
| `VersionTags.LatestIsGreatestRerendered` | helper/useful_fns.py:96-99 | a latest tag parses to the same tag as a listed tag that no listed tag exceeds |
| `VersionTags.NextVersionOfGreatest` | helper/useful_fns.py:50-53 | when the greatest tag is `prefix_n`, the next tag is `prefix_(n+1)` |
| `VersionTags.NextVersionRollsOver` | helper/useful_fns.py:50-53 | `V_1, V_2, V_9` are followed by `V_10` |
| `VersionTags.NextVersionKeepsPrefix` | helper/useful_fns.py:52-53 | `RUN_3` is followed by `RUN_4` |
| `VersionTags.NextVersionKeepsInnerSeparators` | helper/useful_fns.py:52-53 | `MY_MODEL_3` is followed by `MY_MODEL_4`: only the last `_` splits |
| `VersionTags.NextVersionUsesStringOrder` | helper/useful_fns.py:50-53 | `V_10, V_2` are followed by `V_3`, because `V_2` is the greater string |
| `VersionTags.NextVersionTakesGreatestNotLast` | helper/useful_fns.py:50-53 | `V_5, V_1` are followed by `V_6`: the greatest tag counts, not the last one listed |
| `VersionTags.NextVersionErrors` | helper/useful_fns.py:51-53 | an empty list, a tag without `_` and a non-numeric suffix each give their own error |
| `VersionTags.ParseTagWithLeadingZeros` | helper/useful_fns.py:97-98 | `V_007` parses to prefix `V` and number 7 |
| `VersionTags.LatestDropsLeadingZeros` | helper/useful_fns.py:96-99 | the latest of `V_007` is `V_7` |
| `VersionTags.NextVersionReissuesTag` | helper/useful_fns.py:50-53 | `V_9, V_10` are followed by `V_10`, which is already listed |
| `VersionTags.ParseAll` | helper/useful_fns.py:52-53 | parsing a whole list succeeds exactly when every tag parses, and then lines up tag by tag |
| `VersionTags.HighestNumbered` | helper/useful_fns.py:50-53 | a listed tag whose number no listed tag exceeds |
| `VersionTags.NextVersionNumeric` | helper/useful_fns.py:50-53 | by numeric maximum, the next tag exists exactly when the list is non-empty and every tag parses; it succeeds a listed tag, its number exceeds every listed number, and it is never already listed |
| `UsefulFns.Flatten` | helper/useful_fns.py:44-47 | the pooled list holds exactly the tags of all rows, and is empty exactly when every row's list is |
| `UsefulFns.ModelKey` | helper/useful_fns.py:35-36 | the looked-up name holds no "." and is the part of the model name after its last "." |
| `UsefulFns.HasModel` | helper/useful_fns.py:39 | `df[df["name"] == name].empty` is false only when some row has that exact name, so an empty table has no model |
| `UsefulFns.CheckAndUpdate` | helper/useful_fns.py:28-55 | `"V_1"` when no row has the unqualified model name (an empty table included); otherwise the next-tag rule over the tags of all rows |
| `UsefulFns.DatasetCheckAndUpdate` | helper/useful_fns.py:57-81 | `"V_1"` for a missing dataset or one with no versions; otherwise the next-tag rule over its versions; never the empty-list error |
| `UsefulFns.GetLatest` | helper/useful_fns.py:83-100 | `"V_1"` when no row has exactly this name (an empty table included); otherwise the latest-tag rule over the first row's tags |
| `UsefulFns.CheckAndUpdateFound` | helper/useful_fns.py:44-53 | for a found model, the empty-list error happens exactly when no row has a tag, and a result succeeds the greatest tag over all rows |
| `UsefulFns.ModelKeyStripsQualifier` | helper/useful_fns.py:35-36 | `db.schema.model` is looked up as `model` |
| `UsefulFns.CheckAndUpdateStripsQualifier` | helper/useful_fns.py:35-40 | the next tag is the same for a qualified and an unqualified model name |
| `UsefulFns.CheckAndUpdateIgnoresRowOrder` | helper/useful_fns.py:39-53 | reordering or repeating the table's rows does not change the next tag |
| `UsefulFns.DatasetIgnoresOrder` | helper/useful_fns.py:71-81 | the order of a dataset's versions does not change its next tag |
| `UsefulFns.CheckAndUpdateReadsEveryRow` | helper/useful_fns.py:44-53 | with rows `A: [V_5]` and `B: [V_1]`, the next tag for `B` is `V_6` |
| `UsefulFns.GetLatestReadsFirstRow` | helper/useful_fns.py:96 | with rows `A: [V_5]` and `B: [V_1]`, the latest tag for `B` is `V_5` |
| `UsefulFns.CheckAndUpdateSingleModel` | helper/useful_fns.py:39-53 | with one row `M: [RUN_3]`, the next tag for `M` is `RUN_4` |
| `UsefulFns.CheckAndUpdateQualifiedName` | helper/useful_fns.py:35-40 | with one row `M: [RUN_3]`, the next tag for `<anything>.M` is `RUN_4` |
| `UsefulFns.GetLatestQualifiedName` | helper/useful_fns.py:90-93 | with one row `M: [RUN_3]`, the latest tag for `DB.SCHEMA.M` is `V_1`: no stripping |

## Findings

| source | as written | input that shows it | evidently intended | confidence | as-written member | corrected member |
|---|---|---|---|---|---|---|
| helper/useful_fns.py:50-53 (and 75-79) | the tags are sorted as strings and the greatest string is incremented | versions `["V_9", "V_10"]`: the greatest string is `"V_9"`, so the answer is `"V_10"`, a tag that already exists | increment the largest number, answering `"V_11"`, a tag not yet in use | high that the code behaves this way; not executed | `VersionTags.NextVersion`, shown by `VersionTags.NextVersionReissuesTag` | `VersionTags.NextVersionNumeric` |

Once a model or dataset reaches ten versions, the helpers hand out a tag
that already exists. `NextVersionNumeric` takes the tag with the largest
number. Its contract proves that its answer is newer than every existing
tag and so is never one of them. The three helper models keep the
as-written string order, because they model the code.

## Left out

- `run_sql`, `create_SF_Session`, `create_ModelRegistry`, `create_FeatureStore`: session set-up, SQL execution, reading `connection.json`, vendor registry and feature-store calls and `print` output. Nothing in them goes beyond delegating to the vendor SDK.
- `formatSQL`: a wrapper over a third-party SQL parser and transpiler, which is not part of this model.
- `get_spine_df` and `implementations/01_snowflake_notebooks/feature_engineering_fns.py`: lazy dataframe expressions, date arithmetic against the current date, and floating-point division and rounding.
- The `versions` column parsing with `ast.literal_eval`: each row's versions are taken as an already parsed list of strings. Entries that are not strings are not modelled.
- `dataset_check_and_update`'s session: building the name `database.schema.name`, `Dataset.load` and `list_versions`. The lookup is a parameter: `None` means the dataset does not exist, otherwise it gives the version list. Other errors of the lookup propagate in Python and are not modelled.
- The `print(lst, last_value)` at line 78, and the store `lst[-1] = new_last_value` at lines 54 and 80 into a local list that is never read again.
- `get_latest` reads `df["versions"][0]` by index label 0. The model takes the first row, which is the same thing for the default index of `show_models`. A table whose index has no label 0 raises `KeyError` in Python, and that is not modelled.
- A table without a `name` or `versions` column is not modelled.
- Python sorts with Timsort and the model sorts by insertion. Only the last element of the sorted list is used, and the model proves that this element is the one greatest string, whatever the sorting method.
- PyText.ParseNat: accepts only ASCII decimal digits. Python's `int` also accepts surrounding whitespace, a leading sign and non-ASCII decimal digits. Digit-group underscores cannot reach it, because the text comes from after the last `_`.
