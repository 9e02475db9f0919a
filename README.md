# Shoe inventory, modelled in Dafny

A model of the core of a small desktop shoe-inventory application. The
application is made of four parts:

- a `Shoe` record: brand, model, size and color;
- an `InventoryManager` that keeps an ordered list of shoes and rewrites a CSV
  file after every change;
- the CSV store, which creates, loads and saves that file;
- the input helpers of the Tk window. These check form input, build search
  queries, and turn a shoe into the one-line text shown in the list box and
  back again.

The project holds one module per source file, plus two support modules:

| file | module | models |
|---|---|---|
| `wrappers.dfy` | `Wrappers` | `Option` and `Result`, for absent values and error paths |
| `strings.dfy` | `Strings` | the `str` operations the code relies on: `strip`, `lower`, `in`, `split` on one character, `split(c, 1)[1]`, and decimal digit strings |
| `models.dfy` | `Models` | `models.py`: the size type, `_format_size`, `float()` on decimal text, `Shoe` and `to_row` |
| `data_storage.dfy` | `DataStorage` | `data_storage.py`: the file as a class `CsvFile` (an "exists" flag plus its rows), `ensure_csv_exists`, the `load_inventory` loop, `save_inventory` |
| `inventory.dfy` | `Inventory` | `inventory.py`: the class `InventoryManager` and the search filter |
| `gui.dfy` | `Gui` | `gui.py`: `_validate_text`, `_parse_size`, the checks of `_on_add`, the query building of `_on_search`, `_shoe_to_list_text` and `_shoe_from_list_text` |

### Sizes

Sizes are exact decimals, not binary floats. `Decimal(m, k)` stands for
m / 10^k. A `Size` is a decimal in canonical form: when there is a fraction, its
last digit is not 0. Two sizes are therefore equal as values exactly when they
are equal as numbers (`SizeEqualityIsNumeric`), which is how Python's `==`
compares the floats.

- `FormatSize` is `_format_size`. A whole size prints like `str(int(size))`
  ("10"); any other size prints in decimal form ("9.5").
- `ParseSize` is `float(text)` on plain decimal notation:
  - surrounding whitespace;
  - an optional sign;
  - digits with an optional point, with at least one digit in all.

### The CSV file

The CSV file is an object with two fields: `present`, and `rows`, each row
already split into cells. Loading follows what `csv.DictReader` hands to the
loop:

- the first row is the header, and a file with no rows has no header;
- an empty row (a blank line) is skipped and gets no line number;
- a cell is looked up by the last header column of that name;
- a column the row is too short for reads as "".

"The file holds the list" is the predicate `InventoryManager.Persisted`: the
file exists, and its rows are the header followed by `to_row()` of each shoe,
in order.

### What the code checks, and where

- `add_shoe` performs no validation: it appends any shoe and saves. Only the
  window's `_on_add` checks the input (`Gui.ShoeFromForm`).
- `load_inventory` accepts any size that `float` parses, including zero and
  negative sizes. It does not require a positive size.
- The only header check is that a header row exists. A header with other
  column names loads, and every data row then fails with "missing field".

## Model

| member | source | states |
|---|---|---|
| Strings.Trim | data_storage.py:42-45 | `strip()` returns text with no whitespace at either end |
| Strings.TrimCutsWhitespace | data_storage.py:42-45 | what `strip()` keeps is a stretch of the input with only whitespace removed on each side |
| Strings.TrimOfPadded | gui.py:271-275 | a trimmed core with whitespace around it strips to exactly that core |
| Strings.TrimFixedPoint | gui.py:144-147 | a string is unchanged by `strip()` exactly when it has no surrounding whitespace, so `strip()` is idempotent |
| Strings.TrimBlank | data_storage.py:42-47 | text that is all whitespace strips to the empty string |
| Strings.Lower | inventory.py:111 | `lower()` keeps the length and lower-cases each character |
| Strings.LowerIdempotent | inventory.py:105-115 | lower-casing twice equals lower-casing once |
| Strings.LowerKeepsSpace | inventory.py:105-107 | lower-casing neither creates nor removes whitespace, so it keeps text all-blank or trimmed |
| Strings.TrimLower | inventory.py:105-107 | `s.strip().lower()` equals `s.lower().strip()` |
| Strings.ContainsIff | inventory.py:111 | `q in field` holds exactly when `q` occurs at some position of `field` |
| Strings.Contains | inventory.py:111 | the empty query is found in every text, as `"" in s` is; ContainsIff gives the rest |
| Strings.ContainsLength | inventory.py:111 | a text can only contain a query that is no longer than itself |
| Strings.IndexOf | gui.py:272-275 | the first position of a character, or the length when it is absent |
| Strings.IndexOfJoined | gui.py:272-275 | in `a + [c] + b` with no `c` in `a`, the first `c` is the one after `a` |
| Strings.IndexOfAbsent | gui.py:272-275 | a character that does not occur is found at the end |
| Strings.SplitJoined | gui.py:271 | `split` on a separator absent from the first piece yields that piece, then the parts of the rest |
| Strings.SplitNoSeparator | gui.py:271 | text without the separator splits into itself alone |
| Strings.Split | gui.py:271 | a split has at least one part; SplitJoined and SplitNoSeparator fix the parts |
| Strings.SplitPiecesFree | gui.py:271 | no part of a split holds the separator |
| Strings.AfterFirst | gui.py:272-275 | `split(":", 1)[1]` is absent exactly when there is no ':', and otherwise is the text after the first ':' |
| Strings.AfterFirstJoined | gui.py:272-275 | after a ':'-free prefix and a ':' comes exactly the remainder |
| Strings.NatToStringValue | models.py:43 | the digits `str(n)` prints denote `n` |
| Strings.NatToStringNoLeadingZero | models.py:43 | `str(n)` of a positive number does not start with '0', so it is the shortest decimal form |
| Strings.SplitDigitsValue | models.py:44 | the whole part and the fraction digits of a decimal recombine into its magnitude |
| Models.Normalize | models.py:42-44 | dropping trailing fraction zeros keeps the number and yields a canonical size |
| Models.SizeEqualityIsNumeric | models.py:12-20 | two sizes are equal exactly when they denote the same number |
| Models.IsIntegral | models.py:42 | a decimal without fraction digits is whole; IntegralIffNoFraction gives the converse for sizes |
| Models.IntegralIffNoFraction | models.py:42 | `is_integer()` holds exactly when the canonical size has no fraction digits |
| Models.MagnitudeShape | models.py:42-44 | the printed digits start and end with a digit, and hold a '.' exactly when the size is not whole |
| Models.FormatSize | models.py:32-44 | the size text is non-empty, holds only digits, '-' and '.', and has no surrounding whitespace |
| Models.FormatIntegerSize | models.py:42-43 | a size denoting the integer k prints as `str(k)`, without ".0" |
| Models.IntToString | models.py:43 | `str(int)` is non-empty, starts with '-' exactly for a negative number, and its digits have no leading zero unless the number is 0, for negative numbers too |
| Models.FormatFractionalSize | models.py:44 | a size that is not whole prints with a decimal point |
| Models.ParseWholeDigits | data_storage.py:50 | digits without a point are all integer digits |
| Models.ParsePointDigits | data_storage.py:50 | the point after integer digits separates them from the fraction digits |
| Models.MagnitudeRoundTrip | models.py:42-44 | the unsigned digits of a size parse back to its magnitude and scale |
| Models.ParseSigned | models.py:42-44 | a leading '-' only flips the sign of the parsed number |
| Models.FormatParseRoundTrip | data_storage.py:50 | `float(_format_size(size)) == size` for every size |
| Models.ParseSize | data_storage.py:50 | `float` of empty or all-whitespace text gives no size |
| Models.Shoe.ToRow | models.py:22-29 | `to_row()` has four cells: brand, model, the size text and color, in that order; the size cell parses back to the size |
| Models.FormatTenPointZero | models.py:34 | "10.0" parses as 10, which prints as "10" |
| Models.FormatNinePointFive | models.py:34 | 9.5 prints as "9.5" and "9.5" parses back to 9.5 |
| DataStorage.LastIndexOf | data_storage.py:42-45 | the last header column with a given name, or none when no column has that name |
| DataStorage.ColumnOfLast | data_storage.py:42-45 | a name whose last header column is j reads cell j of the row |
| DataStorage.HeaderNamesDistinct | data_storage.py:14 | the four CSV header names are pairwise different |
| DataStorage.HeaderColumns | data_storage.py:14 | under `CSV_HEADERS` (the constant `CsvHeaders`) each of the four names reads its own cell of a four-cell row |
| DataStorage.Column | data_storage.py:42-45 | a column missing from the header reads as ""; otherwise the cell comes from the last header column of that name, or is "" when the row is too short for it |
| DataStorage.ShoeFromFieldsIff | data_storage.py:42-51 | cells give a shoe exactly when the stripped brand, model and color are non-empty and the stripped size parses; the shoe holds those values |
| DataStorage.ShoeFromFields | data_storage.py:42-51 | a shoe built from cells is storable, and every cell it came from is non-empty |
| DataStorage.DecodeRow | data_storage.py:41-51 | a row yields a shoe only under a header that names all four columns, and the shoe is storable |
| DataStorage.NonBlank | data_storage.py:40 | the loop sees every non-empty row as many times as the file holds it, and no blank row |
| DataStorage.NonBlankSnoc | data_storage.py:40 | one more row of the file: a blank one is dropped, any other comes after the rows kept so far, so the kept rows are in file order |
| DataStorage.EmptySizeRejected | data_storage.py:47-48 | an empty size cell never yields a shoe |
| DataStorage.LoadResult | data_storage.py:36-38 | loading fails with "missing headers" exactly when the file has no rows |
| DataStorage.DecodeFrom | data_storage.py:40-53 | a failed load reports a bad data row, numbered no lower than the first line |
| DataStorage.DecodeFromOk | data_storage.py:40-55 | a load succeeds exactly when every non-blank row decodes; it then yields one shoe per non-blank row, in file order |
| DataStorage.DecodeFromFirstBad | data_storage.py:40-53 | the first row that fails is reported, as line 2 plus the number of non-blank rows before it, and no list is returned |
| DataStorage.DecodeStep | data_storage.py:40-51 | reading one good row moves its shoe onto the end of the list read so far |
| DataStorage.DecodeSkip | data_storage.py:40 | a blank row is skipped and takes no line number |
| DataStorage.DecodeFail | data_storage.py:40-53 | a bad row ends the load with its own line number, whatever was read before it |
| DataStorage.DecodeRows | data_storage.py:40-55 | the row loop, numbering from line 2, returns exactly `DecodeFrom` of the data rows: every shoe in order, or the first bad line |
| DataStorage.SavedRows | data_storage.py:64-68 | a save writes one row more than there are shoes, the header first |
| DataStorage.SavedRowsAt | data_storage.py:67-68 | row `i + 1` of a save is `to_row()` of the `i`-th shoe |
| DataStorage.SavedRowsSnoc | data_storage.py:67-68 | writing one more shoe adds exactly its row at the end |
| DataStorage.RowMatchesHeaders | models.py:29 | under the CSV header, each cell of `to_row()` holds the field of that column; text fields pass through unchanged |
| DataStorage.FieldsRoundTrip | data_storage.py:42-51 | the cells of a storable shoe decode to that shoe |
| DataStorage.DecodeSavedRow | data_storage.py:42-51 | the row a storable shoe is saved as decodes to that shoe |
| DataStorage.DecodeAllGood | data_storage.py:40-55 | rows that all decode load as exactly their shoes |
| DataStorage.SaveLoadRoundTrip | data_storage.py:58-68 | loading what a save wrote gives back the same list, when every shoe's text fields are trimmed and non-empty |
| DataStorage.CsvFile.EnsureExists | data_storage.py:17-25 | a missing file is created holding only the header; an existing file is left as it is |
| DataStorage.CsvFile.LoadInventory | data_storage.py:28-55 | ensures the file exists, then returns the load result of its rows without changing them |
| DataStorage.CsvFile.SaveInventory | data_storage.py:58-68 | the file exists afterwards and holds exactly the saved rows of the list |
| DataStorage.EnsureExistsIdempotent | data_storage.py:17-25 | ensuring the file exists twice has the effect of doing it once |
| Inventory.QueryText | inventory.py:105-107 | a query text is stripped, and an absent query is the empty filter |
| Inventory.QueryTextLower | inventory.py:105-107 | a query text has nothing left to lower-case |
| Inventory.MakeQuery | inventory.py:105-107 | every text filter is stripped and lower-case, and the size filter is the size as given |
| Inventory.TextMatches | inventory.py:111-115 | an empty text filter lets every shoe through |
| Inventory.Matches | inventory.py:110-118 | a query with no filters matches every shoe |
| Inventory.MatchesSize | inventory.py:117-118 | a matching shoe has the requested size as a number, and a query with only a size matches exactly the shoes of that size |
| Inventory.MatchesTests | inventory.py:111-118 | a shoe matches exactly when it passes the four tests of the search loop |
| Inventory.PassesFilters | inventory.py:111-119 | the four tests, taken in order, keep a shoe exactly when it matches the query |
| Inventory.Filter | inventory.py:109-121 | the search result is no longer than the list, and every result is in the list and passes every filter |
| Inventory.FilterSnoc | inventory.py:110-119 | the next shoe is appended to the result exactly when it passes the filters |
| Inventory.FilterIsSubsequence | inventory.py:109-121 | the search result is an order-preserving subsequence of the list |
| Inventory.FilterCount | inventory.py:109-121 | the result has every copy of each matching shoe and no copy of any other shoe |
| Inventory.FilterKeepsAll | inventory.py:109-121 | when every shoe matches, the result is the whole list |
| Inventory.BlankQueryText | inventory.py:105-107 | an absent or all-whitespace query is the empty filter |
| Inventory.UnfilteredSearch | inventory.py:105-121 | a search with no filters, or with blank ones, returns the whole list in order |
| Inventory.SearchIgnoresCase | inventory.py:105-115 | lower-casing the query or the shoe's field does not change whether a text filter matches |
| Inventory.RemoveFirst | inventory.py:69-74 | without the shoe the list is unchanged; with it the list loses exactly one element |
| Inventory.RemoveFirstAt | inventory.py:69-73 | removal takes out exactly the element at the first index holding the shoe: `old[..i] + old[i+1..]` |
| Inventory.RemoveFirstMultiset | inventory.py:69-73 | removal takes away exactly one copy of the shoe, if there is one, so of two identical shoes one remains |
| Inventory.InventoryManager.constructor | inventory.py:21-29 | a new manager has an empty list and reads nothing |
| Inventory.InventoryManager.PersistedLoadsBack | inventory.py:49-57 | when the file holds the saved rows of the list (`Persisted`) and every shoe is storable, loading the file gives back the list |
| Inventory.InventoryManager.Load | inventory.py:31-38 | on success the list is replaced wholesale by the load result; on an error the list is unchanged and the error is the load's |
| Inventory.InventoryManager.ListAll | inventory.py:40-47 | returns the current list and changes nothing |
| Inventory.InventoryManager.AddShoe | inventory.py:49-57 | the shoe is appended at the end and the file then holds the new list, which loads back as that list when all shoes are storable |
| Inventory.InventoryManager.RemoveShoe | inventory.py:59-74 | returns whether the shoe was present; if so, its first copy is removed and the file holds the new list; if not, neither the list nor the file changes |
| Inventory.InventoryManager.ClearInventory | inventory.py:76-81 | the list is empty and the file holds just the header, even if the list was already empty |
| Inventory.InventoryManager.Search | inventory.py:83-121 | returns `Filter` of the list for the normalised query (the matching shoes, in list order) and changes nothing |
| Gui.ValidateText | gui.py:130-147 | returns the stripped value, and fails naming the field exactly when the stripped value is empty |
| Gui.ValidateTextIdempotent | gui.py:144-147 | an accepted value is accepted again unchanged |
| Gui.ParseSizeInput | gui.py:109-128 | blank input fails as "Size is required"; otherwise input succeeds exactly when it parses to a size > 0, which it then returns |
| Gui.ParseSizeInputAcceptsFormatted | gui.py:122-128 | the printed form of any positive size is accepted as that size |
| Gui.ShoeFromForm | gui.py:149-160 | the add form yields only shoes with trimmed, non-empty text fields and a size > 0, and a blank brand is reported first |
| Gui.ShoeFromFormIff | gui.py:154-160 | the form is accepted exactly when brand, model and color are non-blank and the size text is a positive number; the shoe then holds the stripped texts |
| Gui.ShoeFromFormRoundTrip | gui.py:154-160 | typing a storable, positive-sized shoe's own fields into the form yields that shoe |
| Gui.AddFromForm | gui.py:149-160 | a valid form adds its shoe and saves; an invalid one changes neither the list nor the file |
| Gui.AddFromFormKeepsStorable | gui.py:149-160 | adding through the form keeps every shoe storable, so the saved file loads back as the list |
| Gui.OrNone | gui.py:207-209 | `value.strip() or None` is absent exactly for blank text and otherwise is the stripped text |
| Gui.SearchRequest | gui.py:202-216 | the search fails only on a non-blank size box that is not a positive number, and then with `_parse_size`'s error; size is constrained exactly when its box is non-blank, and then to the positive size `_parse_size` returns |
| Gui.SearchRequestQuery | gui.py:207-216 | turning blank boxes into absent filters gives the same query as passing the box texts themselves |
| Gui.OrNoneQuery | gui.py:207-209 | `value.strip() or None` normalises to the same query text as the value itself |
| Gui.FieldValue | gui.py:272-275 | a part yields no value exactly when its stripped text has no ':' |
| Gui.ShoeFromListText | gui.py:257-279 | parsing fails exactly when there are fewer than four '\|'-separated parts, one of the first four has no ':', or the size text does not parse |
| Gui.ListText | gui.py:243-255 | when brand, model and color are non-empty, trimmed and free of '\|', the text splits at '\|' into four parts that read back as brand, model, the size text and color |
| Gui.SizeTextGood | gui.py:254 | the size text of the list is non-empty, trimmed and free of '\|' |
| Gui.FieldValueSteps | gui.py:271-275 | a part's value is the stripped text after the first ':' of the stripped part |
| Gui.FieldTrimmed | gui.py:255 | a "name: value" field with a trimmed name and value has no surrounding whitespace |
| Gui.FieldAfterColon | gui.py:255-275 | the text after the first ':' of a field is the space and the value |
| Gui.TrimAfterSpace | gui.py:272-275 | stripping the space written after the ':' gives the value back |
| Gui.FieldValueOfPadded | gui.py:271-275 | a "name: value" part with spaces around it reads back as its value |
| Gui.SplitFour | gui.py:255-271 | splitting the list text on '\|' yields its four labelled pieces, with their spaces still attached |
| Gui.FieldsSplit | gui.py:255-271 | four labelled fields joined by " \| " split into exactly those fields, with their spaces still attached |
| Gui.PaddedFieldsRead | gui.py:271-275 | each of the four padded parts reads back as its value |
| Gui.JoinedFieldsRead | gui.py:255-275 | four labelled fields joined by " \| " split into four parts that read back as the four values |
| Gui.ListTextRoundTrip | gui.py:243-279 | the list text of a shoe whose text fields are trimmed, non-empty and free of '\|' parses back to that shoe |

## Left out

- The Tk window, its widgets, layout, dialogs and event loop are not modelled. That covers `_build_ui`, `_on_remove_selected`, `_on_clear`, `_on_show_all`, `_refresh_list` and `_clear_add_fields`. Neither is `main.py`, which only wires a fixed path to the manager.
- File-system effects are not modelled: paths, `mkdir`, `open`, UTF-8 encoding, CSV quoting and line endings. A file is an "exists" flag and a sequence of rows already split into cells. A failing read or write is not modelled, and every save succeeds. The code's lack of rollback after a failed save is therefore not represented.
- Error messages are constructors, not text. A failed load reports the raw row rather than the dict `csv.DictReader` builds from it.
- Models.ParseSize: covers only plain decimal notation. Exponents ("1e1"), "inf"/"nan", underscores between digits and non-ASCII digits, all of which `float` also accepts, are out of scope. Such text is rejected here, so the model can reject a file or an input that the program accepts.
- Models.FormatSize: prints the exact decimal, not a binary float. A whole float of any magnitude prints as `str(int(size))` (models.py:42-43), as here. A float that is not whole prints through `str(float)`: it shows the float's shortest round-tripping digits, not the decimal typed in, and small values use exponent form (`5e-05` rather than `0.00005`). Neither is modelled.
- Strings.Lower: lower-cases ASCII letters only. Python's `lower()` also maps other Unicode letters, so a search on non-ASCII brands can match differently.
- Inventory.InventoryManager.Search: compares sizes as exact decimals, while Python compares floats. Two decimal texts that round to the same float, such as "9.5" and "9.50000000000000001", are equal at inventory.py:117 but different here. A query of "inf" or "nan" cannot be expressed at all.
- Inventory.InventoryManager.RemoveShoe: compares shoes with exact decimal sizes, so the float rounding described for Search also makes `==` at inventory.py:70 match shoes that the model keeps apart.
- `DictReader`'s extra cells beyond the header (collected under the key `None`) never affect the four looked-up columns, so they are not represented.
