# Thermal log preparation — a Dafny model

`thermal_app.py` is a dashboard for thermal logs. For each host address the
user enters, it opens a tab. Inside that tab the user walks three dropdowns
(date, device/cell, serial) down a folder tree. The dashboard then reads a
CSV log and prepares it for plotting.

This project models the logic of that file that runs without widgets or
files:

- `prepare_data` (modules `Series`, `Frame`, `Prepare`). It adds the
  `backdiff` column, which is the absolute back-difference of the
  `FTC Servo Track` column with NaN filled by 0. It adds a no-value column
  for each of the twelve expected labels that is missing. It projects a copy
  onto those twelve labels in their fixed order, renumbers `Spiral Count` to
  1..n, and computes the zero-spiral marker: the position of the second row
  whose `Spiral Number` is 0, plus one, or -1.
- The dropdown options and the index each dropdown opens at (module
  `Selector`). The options are the placeholder `-- Select --` followed by
  the sorted folder names: in descending string order (`reverse=True`) for
  the date dropdown, ascending for the two others.
- The tab labels (module `Tabs`). A label is `IP: <stripped address>`, or
  `IP <n>` when the address is blank.

`prepare_data` changes the caller's frame in place and then changes a copy
of it. So a frame is a class, `Frame.DataFrame`, with these fields:

- an ordered list of distinct column labels;
- a map from each label to its column of cells;
- a row count.

Its methods `SetColumn` and `Select` stand for `df[name] = values` and
`df[labels].copy()`. A cell is `Num(v)` or `NaN`, pandas' no-value marker,
and numbers are exact reals. The backdiff pipeline (`shift`, subtraction,
`abs`, `fillna`) is modelled operation by operation. Its closed form and its
non-negativity are proved as lemmas.

The frames come from CSV parsing, which gives every frame a 0..n-1 range
index. The model therefore takes a row's index label to be its position.
This matters for the zero-spiral marker, which reads index labels.

The code raises a key error when `FTC Servo Track` is missing, because line
60 reads that column before anything else. It does not raise one for a
missing `Spiral Number`: the fill loop at lines 68-70 creates that column as
all no-value, so the marker is -1. So a missing `Spiral Number` is not an
error, unlike a missing `FTC Servo Track` (`Prepare.PrepareData`,
`Prepare.PreparedMarker`).

## Model

| member | source | states |
|---|---|---|
| Series.NaNs | thermal_app.py:70 | the column written for a missing label has one no-value cell per row |
| Series.Shift | thermal_app.py:60 | `shift(1)` keeps the length, puts NaN in row 0 and moves row i-1 to row i |
| Series.Sub | thermal_app.py:60 | row-aligned `-`: row i is the difference of the two numbers, or NaN when either is NaN |
| Series.Abs | thermal_app.py:60 | `abs`: row i is the absolute value of a number, never negative, and NaN stays NaN |
| Series.FillNa | thermal_app.py:61 | `fillna(v)` keeps the length, replaces every NaN by `v`, keeps every number, and leaves no no-value cell |
| Series.Backdiff | thermal_app.py:60-61 | the backdiff column has one cell per servo row, and every cell is a non-negative number |
| Series.BackdiffAt | thermal_app.py:60-61 | row 0 of backdiff is 0; row i is the absolute difference to row i-1 when both servo values are present, and 0 otherwise |
| Series.BackdiffJump | thermal_app.py:60-61 | a backdiff value is positive exactly when it is not row 0, both servo values are present, and they differ |
| Series.IsZero | thermal_app.py:78 | `cell == 0` holds exactly for the number 0; NaN never compares equal to 0 |
| Series.ZeroRows | thermal_app.py:78 | the positions selected by `index[col == 0]` are exactly the rows holding 0, in strictly increasing order; a NaN cell is never selected |
| Series.ZeroSpiralMarker | thermal_app.py:79 | the marker is -1 or lies in [2, n] |
| Series.MarkerAbsentIff | thermal_app.py:78-79 | the marker is -1 exactly when fewer than two rows hold a zero spiral number |
| Series.MarkerIsSecondZero | thermal_app.py:78-79 | a defined marker is one past a zero row with exactly one earlier zero row, i.e. the second zero row |
| Series.NoValueColumnHasNoMarker | thermal_app.py:70 | an all-no-value spiral-number column (a missing one, once filled) gives marker -1 |
| Series.ThreeRowExample | thermal_app.py:60-79 | servo [5, 7, 2] gives backdiff [0, 2, 5]; spiral [1, 0, 0] gives marker 3 |
| Frame.DataFrame.constructor | thermal_app.py:72 | a frame built from distinct labels and equally long columns is well formed |
| Frame.DataFrame.Column | thermal_app.py:60 | `df[name]` succeeds exactly when the label is present and yields that column with `rows` cells; otherwise a key error naming the label |
| Frame.DataFrame.SetColumn | thermal_app.py:60-61 | assigning a column replaces only that column; a new label goes after the others, and an existing one keeps its place; the frame stays well formed |
| Frame.DataFrame.Select | thermal_app.py:72 | the copy holds exactly the requested labels in the requested order, with the same rows and the same column contents |
| Prepare.OrderedColumnsFacts | thermal_app.py:63-66 | the expected labels are twelve distinct labels, with `Spiral Count`, `Spiral Number`, `FTC Servo Track` and `backdiff` at positions 0, 1, 3 and 5 |
| Prepare.Counting | thermal_app.py:75 | `range(1, n + 1)` has n cells and holds k + 1 at position k |
| Prepare.MissingColumnsMember | thermal_app.py:68-70 | a label is added by the fill loop exactly when it is expected and absent |
| Prepare.FilledColumnsAppendsMissing | thermal_app.py:68-70 | filling label by label appends the missing expected labels, in expected order, after the existing labels |
| Prepare.FillMissing | thermal_app.py:68-70 | the loop adds a no-value column for each missing expected label, in order, and leaves every existing column unchanged; the frame stays well formed with the same row count |
| Prepare.ProjectAndRenumber | thermal_app.py:72-75 | the new frame has exactly the twelve expected columns in order, the same rows, the carried columns unchanged and `Spiral Count` renumbered |
| Prepare.PreparedShape | thermal_app.py:60-72 | the prepared columns are exactly the twelve expected ones, each with as many rows as the input |
| Prepare.PreparedSpiralCount | thermal_app.py:75 | `Spiral Count` at position k is k + 1, whatever the input held |
| Prepare.PreparedBackdiff | thermal_app.py:60-61 | prepared backdiff row i is a non-negative number equal to the back-difference closed form |
| Prepare.PreparedCarriesOthers | thermal_app.py:68-72 | every other expected column keeps the input's values when present and is all no-value when absent |
| Prepare.PreparedMarker | thermal_app.py:68-79 | the marker is the input's `Spiral Number` marker, or -1 when the input has no such column |
| Prepare.FillThenProject | thermal_app.py:60-75 | adding backdiff, filling, projecting and renumbering gives the prepared columns |
| Prepare.PrepareData | thermal_app.py:57-81 | without a servo-track column it is a key error and the frame is unchanged. Otherwise the input frame gains backdiff and the missing columns in place, and the result is a new frame with the twelve ordered prepared columns and the same rows, together with the marker of its `Spiral Number` column |
| Selector.StrLeIff | thermal_app.py:141 | `StrLe`, Python's string order, which `sorted` follows, holds exactly when the first string is a prefix of the second or holds the smaller character at the first position where they differ |
| Selector.StrLeTotal | thermal_app.py:141 | any two names are comparable under Python's string order |
| Selector.InsertPermutation | thermal_app.py:141 | inserting adds exactly the one new name |
| Selector.ConsSorted | thermal_app.py:141 | a name placed before a sorted list that it may precede keeps the list sorted |
| Selector.InsertSorted | thermal_app.py:141 | inserting into a sorted list keeps it sorted |
| Selector.Sort | thermal_app.py:141 | `sorted(...)`, ascending or descending, is in order and a permutation of the names |
| Selector.Options | thermal_app.py:141 | the options are the placeholder followed by a sorted permutation of the folder names |
| Selector.IndexOf | thermal_app.py:142 | `list.index` returns the first position holding the value |
| Selector.SelectorIndex | thermal_app.py:141-142 | the index is in range; the option there is the previous selection when it is a folder name and the placeholder otherwise; it is 0 when the previous selection is not a folder name; no earlier option equals the previous selection (first occurrence) (the same rule at lines 153-154 and 164-165, ascending) |
| Tabs.IsSpaceIff | thermal_app.py:125 | `IsSpace`, the whitespace that `strip()` removes is exactly the 29 code points Python's `str.isspace()` accepts |
| Tabs.TrimStart | thermal_app.py:125 | only leading whitespace is removed, and the rest does not start with whitespace |
| Tabs.TrimEnd | thermal_app.py:125 | only trailing whitespace is removed, and the rest does not end with whitespace |
| Tabs.Strip | thermal_app.py:125 | `strip()` is a slice of the address that only drops whitespace at either end and neither starts nor ends with whitespace |
| Tabs.StripIdempotent | thermal_app.py:125 | stripping twice is stripping once |
| Tabs.StripEmptyIff | thermal_app.py:125 | an address strips to nothing exactly when it is all whitespace |
| Tabs.NatToString | thermal_app.py:125 | `str(n)` is a non-empty string of digits with no leading zero, and "0" for 0 |
| Tabs.CanonicalDecimal | thermal_app.py:125 | every digit string without a leading zero is the decimal form of the number it denotes, so the decimal form is unique |
| Tabs.DecimalRoundTrip | thermal_app.py:125 | reading back the decimal form of n gives n |
| Tabs.NatToStringInjective | thermal_app.py:125 | different tab numbers have different decimal forms |
| Tabs.TabName | thermal_app.py:125 | the label of tab i is "IP: " followed by the stripped address, or, for a blank address, "IP " followed by the decimal digits of i + 1 |
| Tabs.TabNames | thermal_app.py:125 | there is one label per address, in order: label i is "IP: " and stripped address i, or "IP " and the decimal form of i + 1 when address i is blank; each starts with `IP` |
| Tabs.NumberLabelsDiffer | thermal_app.py:125 | labels of two blank addresses differ |
| Tabs.AddressLabelIsNotNumberLabel | thermal_app.py:125 | an address label never equals a number label |
| Tabs.AddressLabelsEqualIff | thermal_app.py:125 | two address labels are equal exactly when the stripped addresses are |
| Tabs.TabNamesCollideIff | thermal_app.py:125 | two tabs share a label exactly when their addresses strip to the same non-empty text |

## Left out

- Streamlit widgets, session state and the add/remove-address buttons (thermal_app.py:12-43, 126, 134-135, 143-146, 155-158, 166-169). The dropdown cascade depends on the framework's rerun model. A widget's own state, which can override `index` on a rerun, is not modelled.
- The dropdown index is modelled for the options and the previous selection. The previous selection comes from session state and is a parameter.
- Directory listing (`get_subfolders`), existence checks and CSV parsing (thermal_app.py:47-55, 171-185). These are filesystem and library calls. Folder names are a parameter, and the frame given to `Prepare.PrepareData` stands for the parsed CSV.
- Plotting and PNG export (thermal_app.py:83-120, 193-207), which are rendering.
- Metric formatting with `max`/`min` and three decimals (thermal_app.py:186-191), which is floating-point formatting.
- Floating-point rounding, infinities and the float type of numbers. Numbers are exact reals, and `Spiral Count` values are the reals k + 1.
- Text cells, and comparisons of them with numbers.
- Duplicate column labels. CSV parsing makes header labels unique, so a frame's labels are distinct.
- Frame.DataFrame.Select: requires every requested label to be present, where pandas would raise a key error. Its only caller selects after the fill loop has added every expected label.
- Selector.Sort: proved sorted and a permutation of its input, but not proved to be the only such list. Python's sort is stable and sorts total orders, so equal names are indistinguishable and nothing observable depends on this.
- The handling of a failed preparation (thermal_app.py:213-214). The dashboard catches the key error and shows its message. `Prepare.PrepareData` returns the error as a value.
