# ed_utils core, modelled in Dafny

This project models four pieces of `ed_utils.py`, a grab-bag utility module:

- **`five_number_summary`** and its inner helper `_list_split` (module `Summary`, file `summary.dfy`).
  - The function rejects lists shorter than two (ValueError) and lists holding a non-number (TypeError).
  - It sorts a copy of the input and splits it at the median Q2. For an odd length the middle element belongs to neither half; for an even length Q2 is the mean of the two middle elements.
  - Q1 and Q3 are the medians of the low and high halves. It returns `(min, Q1, Q2, Q3, max)`.
  - Python's `sorted` is modelled as an insertion sort. It is proved to return the unique ascending permutation of its argument.
- **`column_str`** (module `ColumnLayout`, file `columns.dfy`).
  - It is an imperative method with the source's loop, running width and reset.
  - The method is proved equal to a closed-form layout: every element is padded to the cell width, and a newline follows every `Period`-th cell. `Period` is the least number of cells whose total width reaches the line length.
  - Lemmas then place every cell in the output and show that, for elements without newlines, removing the newlines leaves the padded elements back to back.
- **`is_latitude` / `is_longitude`** (module `Geo`, file `geo.dfy`): inclusive range checks that raise TypeError on a non-number.
- **The permission column of `ls_l`** (module `LongListing`, file `permissions.dfy`).
  - It is an imperative method that walks the last nine characters of `f"{mode:09b}"`.
  - The result is a type character, nine `rwx`/`-` flags and an `@`/space marker for extended attributes.
  - For a non-directory the others-execute flag is always `-`.
  - A decoding lemma shows exactly which mode bits the string keeps.

`common.dfy` holds the shared types:

- a tagged `Value`: a number, or anything else;
- the errors the source raises;
- a `Result` datatype.

`arithmetic.dfy` holds small facts about `*`, `/` and `%` used by the proofs.

Python `int`/`float` values are modelled as mathematical reals, so `/ 2` is exact, and the pinned example `(1, 2.5, 8, 13, 17)` holds literally.

## Model

| member | source | states |
|---|---|---|
| Summary.SortSortsAndPermutes | ed_utils.py:1147 | `sorted(lst)` is in ascending order and is a permutation (same multiset) of `lst` |
| Summary.Sort | ed_utils.py:1147 | `sorted` as an insertion sort: the result has the input's length; SortSortsAndPermutes and SortedUnique prove it is the unique ascending permutation of the input |
| Summary.SortedUnique | ed_utils.py:1147 | two ascending lists with the same multiset are equal, so the sorted copy is fixed by the multiset of the input |
| Summary.SortOfSorted | ed_utils.py:1147 | sorting a list that is already ascending gives it back unchanged |
| Summary.ListSplit | ed_utils.py:1123-1139 | both halves have length `n // 2`; for even `n` the halves concatenate to the input and the median is the mean of the last of the low half and the first of the high half; for odd `n` low + [median] + high is the input, so the middle element is in neither half |
| Summary.MedianSeparatesHalves | ed_utils.py:1123-1139 | on a sorted list, no element of the low half exceeds the median, no element of the high half is below it, and the median lies between the first and the last element |
| Summary.MedianInRange | ed_utils.py:1123-1139 | on a sorted list the median lies between its least and its greatest element |
| Summary.MedianBetweenHalves | ed_utils.py:1123-1139 | on a sorted list of length at least 2 the median lies between element `n//2 - 1` (last of the low half) and element `n - n//2` (first of the high half) |
| Summary.HalvesOfSorted | ed_utils.py:1123-1139 | both halves of a sorted list are sorted, and their first and last elements are the matching elements of the input |
| Summary.Numbers | ed_utils.py:1144-1147 | the numbers of a list are at most as many as its elements, and when every element is a number they are exactly its elements, in order |
| Summary.SummaryOfSorted | ed_utils.py:1149-1166 | the five-number computation on the sorted copy: both `_list_split` calls on the halves are well defined for any length of at least 2, and on a sorted list min <= Q1 <= Q2 <= Q3 <= max |
| Summary.FiveNumberSummary | ed_utils.py:1141-1166 | ValueError exactly when the length is at most 1; TypeError exactly when the length is at least 2 and some element is not a number; no other error |
| Summary.SummaryOrdered | ed_utils.py:1147-1166 | whenever a summary is returned, min <= Q1 <= Q2 <= Q3 <= max |
| Summary.SummaryExtremes | ed_utils.py:1147-1166 | the first component is the least input and the last is the greatest: every input lies between them and both occur in the input |
| Summary.SummaryDependsOnlyOnMultiset | ed_utils.py:1141-1166 | two inputs holding the same elements, in any order, give the same result, the same error included |
| Summary.SummaryOfOrderedInput | ed_utils.py:1141-1166 | a list of at least two numbers already in ascending order is summarised without reordering |
| Summary.SortedNine | ed_utils.py:1149-1166 | on nine sorted values Q1 is the mean of the 2nd and 3rd, Q2 the 5th, and Q3 the mean of the 7th and 8th |
| Summary.SortedFour | ed_utils.py:1149-1166 | on four sorted values Q1, Q2 and Q3 are the means of the 1st/2nd, 2nd/3rd and 3rd/4th values |
| Summary.SortedTwo | ed_utils.py:1149-1166 | on two sorted values each half holds one value, so Q1 = min, Q3 = max and Q2 is their mean |
| Summary.SummaryOfNine | ed_utils.py:1141-1166 | the summary of any nine numbers given in ascending order, as a formula in them |
| Summary.SummaryOfFour | ed_utils.py:1141-1166 | the summary of any four numbers given in ascending order, as a formula in them |
| Summary.SummaryOfTwo | ed_utils.py:1141-1166 | the summary of any two numbers given in ascending order, as a formula in them |
| Summary.PinnedExampleNine | ed_utils.py:1168-1169 | `[1, 2, 3, 7, 8, 8, 11, 15, 17]` is summarised as `(1, 2.5, 8, 13, 17)` |
| Summary.PinnedExampleConstant | ed_utils.py:1170-1171 | `[1, 1, 1, 1]` is summarised as `(1, 1, 1, 1, 1)` |
| Summary.TwoElementExample | ed_utils.py:1141-1166 | `[5, 9]` is summarised as `(5, 5, 7, 9, 9)`: the shortest accepted list |
| Summary.ErrorExamples | ed_utils.py:1141-1145 | a one-element list raises ValueError even when its element is not a number; a longer list with a non-number raises TypeError |
| ColumnLayout.LeftJustify | ed_utils.py:988 | `str.ljust`: the result has length max(len, width), starts with the element and is padded with spaces only |
| ColumnLayout.MaxLength | ed_utils.py:978-981 | the length of a longest element: no element is longer and some element has exactly that length |
| ColumnLayout.Period | ed_utils.py:989-990 | the least positive number of cells whose total width reaches the line length (1 when the line length is not positive) |
| ColumnLayout.RunningWidthStep | ed_utils.py:989-992 | after `count` cells the running width is `(count mod Period) * width`; the next cell triggers a newline exactly when it brings the running width to the line length, and otherwise the running width grows by one cell |
| ColumnLayout.Running | ed_utils.py:984-992 | the running width after `count` cells stays below one full line of `Period` cells |
| ColumnLayout.ColumnStep | ed_utils.py:989-992 | one loop iteration: the newline test succeeds exactly when the layout breaks after this cell, and the updated or reset counter is the running width for one more cell |
| ColumnLayout.LayoutStep | ed_utils.py:987-992 | laying out one more element appends its padded cell and, when it fills the line, a newline |
| ColumnLayout.Layout | ed_utils.py:987-992 | the text the loop accumulates: it ends in a newline whenever its last cell fills the line; LayoutLength, CellAt and LayoutWithoutNewlines prove its length, where each cell sits, and what remains without newlines |
| ColumnLayout.ColumnStr | ed_utils.py:972-994 | ValueError for negative spacing; `""` for an empty input; otherwise exactly the layout with cell width = longest length + spacing, built by the source's loop |
| ColumnLayout.ColumnStrDefaults | ed_utils.py:921-923 | with the default line length 70 and 5 spaces between columns, `column_str` never raises: `""` for an empty input, otherwise the layout with cell width = longest length + 5 |
| ColumnLayout.BreaksStep | ed_utils.py:989-991 | the number of newlines grows by one exactly at a line-filling cell |
| ColumnLayout.LayoutLength | ed_utils.py:987-992 | the output holds one full-width cell per element plus one character per newline |
| ColumnLayout.LayoutPrefix | ed_utils.py:987-992 | the output for a prefix of the elements is a prefix of the output |
| ColumnLayout.PrefixLength | ed_utils.py:987-992 | the output for the first `k` elements is `k` cells plus their newlines long |
| ColumnLayout.CellAt | ed_utils.py:987-992 | element `k` appears, in input order, padded to exactly the cell width, at offset `k * width + newlines so far`, followed by a newline exactly when it fills the line |
| ColumnLayout.WithoutNewlinesConcat | ed_utils.py:987-992 | deleting newlines distributes over concatenation |
| ColumnLayout.LayoutWithoutNewlines | ed_utils.py:987-992 | for elements without newlines, deleting the newlines from the output leaves the padded elements back to back |
| Geo.IsLatitude | ed_utils.py:1578-1614 | TypeError exactly for a non-number; otherwise true exactly when -90 <= x <= 90, both ends included |
| Geo.IsLongitude | ed_utils.py:1641-1677 | TypeError exactly for a non-number; otherwise true exactly when -180 <= x <= 180, both ends included |
| Geo.LatitudeChecks | ed_utils.py:1620-1629 | the `__main__` checks: 45.678, -90 and 90 are latitudes, 91 is not, and a non-number raises TypeError |
| Geo.LongitudeChecks | ed_utils.py:1683-1692 | the `__main__` checks: 45.678, -180 and 180 are longitudes, 181 is not, and a non-number raises TypeError |
| LongListing.BinaryDigitsBit | ed_utils.py:812 | digit `k` from the right of `format(n, 'b')` is bit `k` of `n`, and every bit beyond the digits is clear |
| LongListing.BinaryDigits | ed_utils.py:812 | `format(n, 'b')`: a non-empty string of '0' and '1' with no leading zero, which is "0" exactly for zero |
| LongListing.FormatBinary9 | ed_utils.py:812 | `f"{n:09b}"` has at least nine characters, so the `[-9:]` slice always takes nine |
| LongListing.FormatBinary9Padding | ed_utils.py:812 | `f"{n:09b}"` is the binary digits preceded by zeros up to nine characters, and by none when there are nine or more digits |
| LongListing.LastNineDigits | ed_utils.py:812-814 | character `i` of the last nine of `f"{n:09b}"` is `'1'` exactly when bit `8 - i` of `n` is set |
| LongListing.Symbol | ed_utils.py:814-844 | the branch chain for position `i`: '-' exactly when the bit is clear or it is the others' execute position of a non-directory, otherwise the letter of `i mod 3` in "rwx" |
| LongListing.PermissionAt | ed_utils.py:814-844 | flag `i` of the string is the symbol the branch chain gives for bit `8 - i` |
| LongListing.Permissions | ed_utils.py:791-848 | 11 characters: `d` or `-` first, `@` or space last; each of the nine flags shows a letter exactly when its mode bit is set (the others' execute flag of a non-directory never does), and that letter is the one of its position in `rwx` |
| LongListing.PermissionString | ed_utils.py:791-848 | the source's loop over the nine mode digits produces exactly the permission string |
| LongListing.LowBitsKept | ed_utils.py:812-814 | reducing a mode modulo `2^k` keeps its `k` lowest bits |
| LongListing.HigherBitsIgnored | ed_utils.py:812-814 | only the low nine bits of the mode affect the string |
| LongListing.FlagsValueOfBits | ed_utils.py:814-844 | flags mirroring the low bits of `n` read back as `n mod 2^len` |
| LongListing.PermissionsRoundTrip | ed_utils.py:814-844 | reading the nine flags back as bits gives `mode mod 512` for a directory, and `mode mod 512` minus its lowest bit for a non-directory |
| LongListing.OthersExecuteHidden | ed_utils.py:839-844 | modes that differ only in the others-execute bit give the same string for a non-directory and different strings for a directory |

## Left out

- `ed_data_viz.py` is not part of this model. It consists of plotting wrappers over matplotlib, seaborn and pandas.
- `five_number_summary2` is a call to `np.quantile`, a foreign numeric library with floating-point interpolation.
- File and OS input/output is out of scope: `head`, `tail`, `wc`, `grep`, `tree`, `get_memory_info`, and everything in `ls_l` except the permission string (stat, owner and group lookup, dates, sizes, HTML display).
- Foreign services, reflection, side effects and printing are out of scope: `speak`, `pp`, `adder`, `inspector`, `versions`, `print_function_annotations`, `HiddenPrints`, `DummyContextManager` and `main`.
- Floating point is not modelled. Numbers are exact reals, so NaN, infinities, rounding in `/ 2` and int-versus-float result types are not captured.
- Python's `bool` being a subclass of `int` (so `True` passes the type checks) is not modelled. `Value` only distinguishes numbers from everything else.
- `ColumnLayout.ColumnStr` does not model the TypeError branches for a non-iterable argument or non-integer `line_length` and spacing (ed_utils.py:963-970). The parameters are typed instead. The elements are strings, whereas the source accepts any element with `len` and `ljust`.
- Aliasing of the input list is not modelled: values are immutable here, so "the caller's list is not reordered, because a sorted copy is used" holds by construction.
- In the permission string, the file type comes from a parameter `isDir` and the extended-attribute marker from a parameter `hasXattr`. They stand in for `os.path.isdir` and `xattr.listxattr`. Terminal colouring of the `x` flags of directories is not modelled.
