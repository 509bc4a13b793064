# Version ordering and room merging, modelled in Dafny

This project models two pieces of a Python course repository.

- **`Version`** (`hw1_semver/main.py`, and its line-for-line copy `hw-1.py`). A
  version string is split once at its first `-` into `main` and a pre-release
  string `pre`. `==` compares both strings. `<` compares the `main`s first,
  segment by segment on `.`. A pre-release sorts below the release with the
  same `main`, and two pre-releases are compared segment by segment. Within a
  segment list the shorter one is padded with `""`. At the first differing pair,
  two leading digit runs compare as integers; otherwise the whole segments
  compare as strings. `functools.total_ordering` derives `>`, `<=` and `>=`
  from `<` and `==`. `main()` asserts six test pairs.
- **`DataMerger.merge`** (`hw2_json/main.py`). It builds a dict keyed by room id,
  each value a copy of the room's fields with an empty `students` list. It then
  appends `{id, name}` for every student whose `room` names a key, and returns
  the dict's values in insertion order.

Files:

- `wrappers.dfy`: `Option`.
- `pystr.dfy`: module `PyStr`, the Python string primitives the comparator uses.
  `str.partition`, `str.split` and its inverse `str.join`, the ASCII reading of
  `^(\d+)`, `int()` on a digit run, and `str <`.
- `semver.dfy`: module `Semver`, the `Version` value, `compare_parts`, `__lt__`,
  the derived operators and their properties. The model keeps the
  comparator's quirks and does not fix them.
- `semver_tests.dfy`: module `SemverTests`, the six pairs of `main()` and
  concrete instances of the quirks.
- `merge.dfy`: module `RoomMerge`, `merge` as a method with loops.
  `MergeSpec` is the function it is proved against, and further lemmas are
  proved about `MergeSpec`.

`__lt__` returns Python's `None` when it falls off its end. `LtResult` therefore
returns `Option<bool>`. `Lt` is the truth value `a < b` has in an `assert`, and
`None` is false there. So `Lt` is not `<` on a total order. `"1.0"` and `"1.0."`
are neither `<` nor `==` in either direction, so each is `>` the other. Equal
digit runs such as `"1a"`/`"1b"` or `"01"`/`"1"` decide nothing either way. The
model proves that `<` is irreflexive and asymmetric. It does not claim
totality or transitivity, which these inputs break.

A comparator like this one is easy to read as a strict total order. The code
does not give one, and the model follows the code. Another consequence of
`partition` is that `"1.0-"` equals `"1.0"`, because both have an empty `pre`
(`ParseEqIff`, `TrailingDashExample`).

`DataMerger.merge` is a method because the source updates the dict in place in
a loop. The dict is a `map` plus a key sequence in insertion order. Its three
steps are the comprehension, the student loop and `list(values())`. Rooms and
students are fixed records: `Room(id, name)` and `Student(id, name, room:
Option<int>)`. A room the dict holds is `MergedRoom(room, students)`: the
room's own fields and its list.

## Model

| member | source | states |
|---|---|---|
| `PyStr.Partition` | hw1_semver/main.py:9 | the head has no separator; if the separator occurs, the string is head + separator + tail; otherwise the result is (string, "", "") |
| `PyStr.PartitionAtFirst` | hw-1.py:9 | partition cuts at the first separator, and the tail may contain more separators |
| `PyStr.Split` | hw1_semver/main.py:16 | `split` gives at least one part, no part contains the separator, and joining the parts gives back the string |
| `PyStr.SplitNoSeparator` | hw1_semver/main.py:16 | a string without the separator splits into itself alone |
| `PyStr.SplitCons` | hw1_semver/main.py:16 | one character of `split`: a separator in front opens a new empty first part, any other character is prepended to the first part; `SplitConsAppend` states how it meets appending |
| `PyStr.SplitConsAppend` | hw1_semver/main.py:16 | putting a character in front of a part list only touches its first part, so it commutes with appending more parts |
| `PyStr.SplitAppend` | hw1_semver/main.py:16 | the parts of `u + sep + t` are the parts of `u` followed by the parts of `t` |
| `PyStr.SplitJoin` | hw-1.py:16 | `split` inverts `join` on parts that contain no separator |
| `PyStr.LeadingDigits` | hw1_semver/main.py:19-20 | the capture of `^(\d+)` is the longest all-digit prefix: it is a prefix, all digits, and followed by a non-digit or the end |
| `PyStr.LeadingDigitsOfRun` | hw-1.py:19-20 | a digit string followed by a non-digit captures exactly that digit string |
| `PyStr.DigitsToNat` | hw1_semver/main.py:22 | `int()` of a digit run, read most significant digit first; `DigitsToNatOfDecimal` and `LeadingZeroIgnored` state its properties |
| `PyStr.DigitsToNatOfDecimal` | hw1_semver/main.py:22 | `int(str(n)) == n`: the digit-run value inverts the decimal numeral |
| `PyStr.Decimal` | hw1_semver/main.py:22 | not a model of the source, which never calls `str(n)`: the reference numeral that the `int()` round trip `DigitsToNatOfDecimal` is stated against; it is non-empty, all digits, and has no leading zero |
| `PyStr.LeadingZeroIgnored` | hw-1.py:22 | a leading zero does not change a digit run's value |
| `PyStr.StrLt` | hw1_semver/main.py:23 | Python's `<` on `str`, by code point, with a proper prefix first; `StrLtIsLexicographic`, `StrLtAsymmetric`, `StrLtConnected` and `StrLtTransitive` state its properties |
| `PyStr.StrLtIsLexicographic` | hw1_semver/main.py:23 | `str <` holds exactly when `a` is a proper prefix of `b` or has the smaller character at the first difference |
| `PyStr.StrLtToLexicographic` | hw1_semver/main.py:23 | if `a < b` on strings, then `a` is a proper prefix of `b` or has the smaller character at the first difference |
| `PyStr.LexicographicToStrLt` | hw1_semver/main.py:23 | conversely, a proper prefix, or a smaller character at the first difference, gives `a < b` on strings |
| `PyStr.StrLtAsymmetric` | hw-1.py:23 | `str <` never holds both ways |
| `PyStr.StrLtConnected` | hw1_semver/main.py:23 | two different strings are ordered one way or the other |
| `PyStr.StrLtTransitive` | hw-1.py:23 | `str <` is transitive |
| `Semver.Parse` | hw1_semver/main.py:8-9 | `main` holds no dash; if the raw string has a dash it is `main + "-" + pre`; otherwise `main` is the whole string and `pre` is "" |
| `Semver.ParseAtFirstDash` | hw-1.py:8-9 | for a dash-free `main`, parsing `main + "-" + pre` gives back exactly `(main, pre)`, even if `pre` contains dashes |
| `Semver.Eq` | hw1_semver/main.py:11-12 | `__eq__`: both `main`s and both `pre`s are equal; `ParseEqIff` states when this holds between raw strings |
| `Semver.Ne` | hw1_semver/main.py:11-12 | `!=`, which Python derives by negating `__eq__`; `DerivedOperators` relates it to `<` and `>` |
| `Semver.ParseEqIff` | hw1_semver/main.py:11-12 | two raw strings give `==` versions exactly when they are equal, or one is the other (dash-free) plus a trailing `-` |
| `Semver.Padded` | hw1_semver/main.py:16 | the element `zip_longest` yields for one side at a position: the segment there, or `""` past the end |
| `Semver.SegmentLt` | hw1_semver/main.py:19-23 | the decision at a differing pair: the values of both leading digit runs when both exist, otherwise `str <` on the whole segments; `SegmentLtAsymmetric`, `SegmentUndecidedIff` and `DigitRunsDecide` state its properties |
| `Semver.CompareFrom` | hw1_semver/main.py:16-23 | the loop of `compare_parts` from a position on: equal padded pairs are skipped, the first differing pair decides through `SegmentLt`, and running off the end gives `None`; `CompareFromNoneIff`, `CompareAtFirstDifference` and `CompareFromSwap` characterise it |
| `Semver.CompareParts` | hw1_semver/main.py:15-23 | `compare_parts(a, b)`: `CompareFrom` on the `.`-segments of `a` and `b` from the first position; `ShorterMainFirst` and `TrailingDotIncomparable` show its padding |
| `Semver.LtResult` | hw1_semver/main.py:14-33 | what `__lt__` returns, `None` included: `compare_parts` on differing mains; with equal mains and differing `pre`s, True when only the left has one, False when only the right has one, `compare_parts` on both otherwise; `None` for equal versions. `MainDecides`, `PreReleaseBeforeRelease` and `LtStrict` state its properties |
| `Semver.Lt` | hw1_semver/main.py:14-33 | the truth value of `a < b`, where `None` counts as false; `LtStrict` proves it irreflexive and asymmetric |
| `Semver.Gt` | hw1_semver/main.py:6 | `>` as `total_ordering` derives it: not `<` and not `==`; `DerivedOperators` states its relation to the others |
| `Semver.Le` | hw1_semver/main.py:6 | `<=` as derived: `<` or `==`; see `DerivedOperators` |
| `Semver.Ge` | hw1_semver/main.py:6 | `>=` as derived: not `<`; see `DerivedOperators` |
| `Semver.CompareFromNoneIff` | hw1_semver/main.py:16-18 | the loop returns `None` exactly when the padded segment lists agree at every remaining position |
| `Semver.CompareAtFirstDifference` | hw1_semver/main.py:16-23 | at the first differing padded position, that pair alone decides the result |
| `Semver.CompareFromSwap` | hw-1.py:15-23 | swapping the arguments keeps `None` as `None` and turns True into False |
| `Semver.SegmentLtAsymmetric` | hw1_semver/main.py:19-23 | the decision on a differing pair never holds both ways |
| `Semver.SegmentUndecidedIff` | hw-1.py:19-23 | a differing pair decides neither way exactly when both begin with digit runs of equal value |
| `Semver.DigitRunsDecide` | hw1_semver/main.py:19-22 | when both segments begin with digit runs, the runs' values decide and the suffixes are ignored |
| `Semver.ShorterMainFirst` | hw1_semver/main.py:16-26 | a missing segment counts as "", so a `main` extended by a non-empty segment is greater, whatever the pre-releases |
| `Semver.TrailingDotIncomparable` | hw1_semver/main.py:14-33 | `m` and `m + "."` with equal `pre` are neither `<` nor `==`, and each is `>` the other |
| `Semver.EqualDigitRunsIncomparable` | hw-1.py:19-26 | single-segment mains that differ but have digit runs of equal value are incomparable under `<` |
| `Semver.MainDecides` | hw1_semver/main.py:25-26 | when the mains differ, `__lt__` is `compare_parts` on the mains and does not depend on either `pre` |
| `Semver.PreReleaseBeforeRelease` | hw1_semver/main.py:27-31 | with an equal `main`, a version with a pre-release is `<` the release, never the reverse, and the release is `>` it |
| `Semver.LtStrict` | hw1_semver/main.py:14-33 | `<` is irreflexive and asymmetric |
| `Semver.DerivedOperators` | hw1_semver/main.py:6 | exactly one of `<`, `==`, `>` holds; `b < a` implies `a > b`; `<=` is not-`>`; `>=` is `>` or `==` |
| `SemverTests.Pair1` | hw1_semver/main.py:38 | `"1.0.0" < "2.0.0"`, `>` and `!=` hold as `main()` asserts |
| `SemverTests.Pair2` | hw1_semver/main.py:39 | the same for `("1.0.0", "1.42.0")` |
| `SemverTests.Pair3` | hw1_semver/main.py:40 | the same for `("1.2.0", "1.2.42")` |
| `SemverTests.Pair4` | hw1_semver/main.py:41 | the same for `("1.1.0-alpha", "1.2.0-alpha.1")` |
| `SemverTests.Pair5` | hw1_semver/main.py:42 | the same for `("1.0.1b", "1.0.10-alpha.beta")` |
| `SemverTests.Pair6` | hw1_semver/main.py:43 | the same for `("1.0.0-rc.1", "1.0.0")` |
| `SemverTests.TestPairsHold` | hw-1.py:37-49 | every pair of the test list satisfies `left < right`, `right > left` and `right != left` |
| `SemverTests.PaddingExamples` | hw1_semver/main.py:16 | `"1.0" < "1.0.0"` and `"1.0" < "1.0.1"` |
| `SemverTests.TrailingDotExample` | hw-1.py:16-33 | `"1.0"` and `"1.0."` are neither `<` nor `==`, and each is `>` the other |
| `SemverTests.EqualDigitRunsExamples` | hw1_semver/main.py:19-22 | `"1a"`/`"1b"` and `"01"`/`"1"` are unequal and neither is `<` the other |
| `SemverTests.TrailingDashExample` | hw-1.py:9-12 | `"1.0-"` `==` `"1.0"` |
| `RoomMerge.RoomIds` | hw2_json/main.py:24 | the dict keys are distinct and are exactly the ids of the input rooms |
| `RoomMerge.LastRoomWith` | hw2_json/main.py:24 | the fields kept for an id are those of a room with that id that has no later duplicate |
| `RoomMerge.Info` | hw2_json/main.py:28-29 | the `{id, name}` entry built from a student |
| `RoomMerge.StudentsIn` | hw2_json/main.py:25-30 | a room's `students` list: the entries of the students whose `room` names it, in input order; `StudentsInMembers`, `StudentsInCount`, `StudentsInAppend` state its properties |
| `RoomMerge.MergeSpec` | hw2_json/main.py:23-31 | the list `merge` returns: one entry per room id in order of first appearance, holding the last room's fields and its students; `MergeOnePerRoomId`, `MergePlacesByRoom`, `MergeKeepsInputOrder` and `MergeCountsPlacedStudents` state its properties |
| `RoomMerge.LoadRoomStep` | hw2_json/main.py:24 | adding one room to the dict appends a new id to the key order or keeps an existing id in place with its fields replaced |
| `RoomMerge.StartPlacing` | hw2_json/main.py:24-25 | once all rooms are loaded, the keys are the room ids in first-appearance order and every list is empty |
| `RoomMerge.PlaceStudentStep` | hw2_json/main.py:25-30 | one student appends its entry to the room it names when that room is a key, and otherwise changes nothing |
| `RoomMerge.ReadOutStep` | hw2_json/main.py:31 | after the last student, reading the entries out in key order gives `MergeSpec` |
| `RoomMerge.Merge` | hw2_json/main.py:23-31 | the method returns `MergeSpec(rooms, students)` |
| `RoomMerge.RoomIdsInFirstAppearanceOrder` | hw2_json/main.py:24 | each key comes before every later key in order of first appearance in the input |
| `RoomMerge.MergeOnePerRoomId` | hw2_json/main.py:24-31 | one output entry per distinct room id, every input id present, in order of first appearance, each with the fields of the last room with that id |
| `RoomMerge.StudentsInMembers` | hw2_json/main.py:25-30 | an entry is in a room's list exactly when some student naming that room carries it |
| `RoomMerge.StudentsInCount` | hw2_json/main.py:25-30 | a room's list has one entry per student naming that room |
| `RoomMerge.MergePlacesByRoom` | hw2_json/main.py:25-30 | each output room holds as many entries as there are students naming it, and exactly the `{id, name}` entries of those students |
| `RoomMerge.StudentsInAppend` | hw2_json/main.py:25-30 | a room's list for `a + b` is its list for `a` followed by its list for `b` |
| `RoomMerge.MergeKeepsInputOrder` | hw2_json/main.py:25-30 | within each output room, students from an earlier part of the input precede those from a later part |
| `RoomMerge.MergeCountsPlacedStudents` | hw2_json/main.py:25-31 | the entries across all rooms number the students whose room exists, so each such student is placed exactly once and all others are dropped |

## Left out

- `hw-1.py` is byte-for-byte the same as `hw1_semver/main.py`, so it is modelled once. Its rows cite the same lines.
- `PyStr.DigitsToNat`: digit runs are read as unbounded naturals. The limit on the number of digits `int()` accepts (4300 by default since Python 3.11) and the `ValueError` it raises beyond that are not modelled, so `LtResult` decides where the source would raise.
- `PyStr.LeadingDigits`: only ASCII `0`-`9` count as digits. Python's `\d` and `int()` also accept other Unicode decimal digits.
- Comparing a `Version` with an object that is not a `Version` (an `AttributeError` in Python) and the `NotImplemented` path of `total_ordering`: the model's operators take two `Version`s only.
- The regular-expression engine itself: `^(\d+)` is the explicit prefix function `LeadingDigits`.
- Totality and transitivity of `<`: the code does not have them (`TrailingDotIncomparable`, `EqualDigitRunsIncomparable`).
- `RoomMerge.Merge`: rooms and students are fixed records with integer ids. A record missing `id` or `name`, the `KeyError` it would raise, keys of other types, and extra room fields are not modelled. A student without a `room` key is `room == None`.
- The rule that input rooms are not mutated needs no member here, because Dafny values cannot be aliased. The `{**room, ...}` copy is the fresh `MergedRoom`.
- `DataLoader`, `JSONExporter`, `XMLExporter` and the argparse `main()` in `hw2_json/main.py` are file I/O and serialisation through `json`, `xml.etree` and `minidom`. They are not modelled.
- `hw3_sql/main.py`, `hw3_sql/app/cli.py`, `hw3_sql/app/readers.py` are database connections, SQL files, logging and argument parsing. They are not part of this model.
