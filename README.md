# Zootopia animal cards, modelled in Dafny

`zootopia.py` reads a JSON list of animal records and normalises each one into
four fields: name, diet, first location and type. Each field is title-cased,
except that the "N/A" placeholder passes through in any casing, and a capital
`S` after a right single quotation mark (`’S`, as in "Darwin’S Fox") is put back
to lower case. The program renders each record as an HTML card and joins the
cards with blank lines. It puts the joined cards in place of the
`__REPLACE_ANIMALS_INFO__` marker of an HTML template, and writes the result to
a file unless the result is empty.

This model covers that pipeline from the parsed JSON value to the finished page
text:

- `wrappers.dfy` holds `Option` and `Result`.
- `text.dfy` models the Python string operations the program relies on, on ASCII
  letters: `str.lower`, `str.title`, the substring test `in`, `str.replace`
  (every occurrence) and `str.join`. `zootopia.py` never calls `str.split`.
  `Text.Split` is only a proof device: it cuts a string at a pattern, so that
  `str.replace` can be described as a join of the pieces.
- `json.dfy` holds the parsed JSON value, `dict.get`, and the text that `str()`
  gives for a value inside an f-string.
- `zootopia.dfy` holds the program itself:
  - `format_value` and `create_template_dict` are functions;
  - the loops of `return_list_for_template` and `create_str_for_template` are
    methods, each proved equal to a specification function;
  - the substitution in `create_updated_html` is a function;
  - the empty-content guard of `persist_updated_html` is a function.
- `properties.dfy` proves properties of the formatter (module `Properties`) and
  of the page (module `PageProperties`).
- `scenarios.dfy` carries one record, a fox, through the pipeline.

The exceptions the Python code would raise on a malformed record are modelled as
`Err` values of the `Fault` type:

- `DataNotIterable`: `for animal in data` gets a number or a boolean.
- `RecordNotObject`: a record is not a dict, so it has no `.get`.
- `MissingCharacteristics`: the `characteristics` key is absent.
- `CharacteristicsNotObject`: `characteristics` is not a dict.

The first failing record decides the error, as the first exception would. A
loaded JSON `null` is Python's `None`, so like a failed load it gives no
animals.

`str.replace` replaces every occurrence of the marker (zootopia.py:152-157).
`Zootopia.Substitute` proves that the result is the template's pieces between
the markers, joined by the card string.

## Model

| member | source | states |
|---|---|---|
| Zootopia.FormatValue | zootopia.py:47-60 | A value that is not a string, and the sentinel in any casing, are returned unchanged. Any other string keeps its length and its letters up to case, and holds no `’S`. |
| Properties.SentinelForms | zootopia.py:55-56 | The string bypasses formatting exactly when it is one of `n/a`, `n/A`, `N/a`, `N/A`. |
| Text.Title | zootopia.py:57 | The definition is the model: a letter is lower-cased after a cased character and upper-cased elsewhere, and every other character is kept. Its `ensures` states only the length. The properties are in the rows below. |
| Text.Lower | zootopia.py:56 | The definition is the model of `str.lower` on ASCII letters, character by character. It ensures only the length; `Text.LowerTitle` and `Properties.SentinelForms` use it. |
| Zootopia.IsSentinel | zootopia.py:55-56 | The definition is the model of `value_str.lower() == DEFAULT_NA_VALUE.lower()`. `Properties.SentinelForms` lists exactly the strings it accepts. |
| Text.LowerTitle | zootopia.py:57 | Title-casing changes only the case of letters: lower-casing its result gives the lower-cased input. |
| Text.TitleIdempotent | zootopia.py:57 | Title-casing a title-cased string changes nothing. |
| Text.TitleIgnoresCase | zootopia.py:57 | Two strings with the same lower-case form title-case to the same string, so the input's casing does not matter. |
| Zootopia.FixPossessive | zootopia.py:59 | The definition is the model: `ReplaceAll` of `’S` by `’s`. It has no `ensures`; its meaning is `Zootopia.FixPossessiveAt`. |
| Zootopia.FixPossessiveAt | zootopia.py:59 | The correction changes exactly the `S` characters that directly follow a `’`, to `s`, and leaves every other position as it was. |
| Zootopia.FixPossessiveSpec | zootopia.py:58-59 | The correction keeps the length and the letters up to case, and leaves no `’S` anywhere in the string. |
| Zootopia.FixPossessiveOnce | zootopia.py:59 | A single `’S` between apostrophe-free text becomes `’s`, and nothing else changes. |
| Zootopia.FixPossessiveNone | zootopia.py:59 | A string without `’` is left unchanged. |
| Properties.FormatValueAt | zootopia.py:55-59 | Each character of a formatted string has a stated value. After a `’` an `s` or `S` becomes `s`. After a letter a character becomes lower case. Anywhere else it becomes upper case. |
| Properties.FormatValueIdempotent | zootopia.py:47-60 | Formatting an already formatted value changes nothing. |
| Properties.FormattedScalarNoUpperPair | zootopia.py:47-60 | The text of a formatted value that is neither list nor dict never holds two upper-case letters in a row. |
| Properties.DarwinsFox | zootopia.py:58-59 | `darwin’s fox` becomes `Darwin’s Fox`. |
| Properties.AsciiApostropheKeepsCapital | zootopia.py:58-59 | Only U+2019 is corrected: `darwin's fox` becomes `Darwin'S Fox`. |
| Json.Display | zootopia.py:122-129 | The definition is the model of `str()` in the f-string: a str is its own text, anything else its `repr`. It has no `ensures`. |
| Json.Repr | zootopia.py:122-129 | The definition is the model of `repr` for a field that is not a str: None, True/False, decimal integers, quoted strings, lists and dicts with `, ` between elements. It has no `ensures`. |
| Json.IntToDecimal | zootopia.py:122-129 | `str()` of an int in the f-string: only digits and the minus sign. With `Json.NatToDecimal` the digits denote the magnitude. |
| Json.NatToDecimal | zootopia.py:122-129 | The decimal text of a number: only digits, at least one, no leading zero, and denoting exactly that number. |
| Json.Get | zootopia.py:70 | `dict.get` gives None exactly when no entry has the key, and otherwise a value stored under the key. |
| Json.GetOr | zootopia.py:70-77 | `d.get(key, default)`: the default when the key is absent, and the stored value otherwise. |
| Zootopia.HasLocations | zootopia.py:71-72 | The definition is the model of `locations_list and isinstance(locations_list, list)`: present, a list, and not empty. `Zootopia.CreateTemplateDict` uses it for the location field. |
| Zootopia.CreateTemplateDict | zootopia.py:63-92 | Covers both the failures and the successful record. Fails when the record is not a dict, when `characteristics` is missing, and when `characteristics` is not a dict, and succeeds otherwise. Each output field is the formatted value of `name`, of the first element of a non-empty `locations` list, of `characteristics.diet` and of `characteristics.type`, or `N/A` when absent. |
| Zootopia.Iterate | zootopia.py:101-106 | Says what `for animal in data` visits. None and null give nothing. A list gives its items, a dict its keys as strings, a string its characters as one-character strings. Only a number or boolean fails. |
| Zootopia.NonListDocumentFails | zootopia.py:101-108 | A non-empty dict or string document fails on its first key or character, which is not a record. |
| Zootopia.NormalizeRecords | zootopia.py:106-108 | The definition is the model of the record loop as a value. It has no `ensures`; the three rows below state its meaning. |
| Zootopia.NormalizeRecordsSpec | zootopia.py:104-109 | Normalising succeeds exactly when every record does. Then the list has one entry per record, in input order, and each entry is that record's template dict. |
| Zootopia.NormalizeRecordsOk | zootopia.py:104-109 | When every record normalises, the result is exactly those dicts in input order. |
| Zootopia.NormalizeRecordsErr | zootopia.py:104-109 | When record `k` is the first that fails, the result is that record's error. |
| Zootopia.ListForTemplate | zootopia.py:101-109 | The definition is the specification of `return_list_for_template`. It has no `ensures`; `Zootopia.ListForTemplateSpec` states its meaning. |
| Zootopia.ListForTemplateSpec | zootopia.py:101-109 | A missing or null document gives the empty list. A list document succeeds exactly when every record does, and then gives one record per element, in order. |
| Zootopia.ReturnListForTemplate | zootopia.py:95-109 | The append loop returns the specification list `ListForTemplate`. |
| Zootopia.Card | zootopia.py:121-130 | The definition is the model: the fixed markup, character for character, around the text of the four fields. It has no `ensures`; the rows below state its properties. |
| Zootopia.StrForTemplate | zootopia.py:118-131 | The definition is the specification of `create_str_for_template`. It has no `ensures`; `Zootopia.CreateStrForTemplate` is proved equal to it. |
| Zootopia.CardsHtml | zootopia.py:131 | The definition is the model of `"\n\n".join(animal_strings)` over one card per animal. It has no `ensures`; `Zootopia.CardsHtmlEmpty` and `PageProperties.CardsInOrder` state its meaning. |
| Text.Join | zootopia.py:131 | The definition is the model of `sep.join(parts)`: the parts in order with `sep` between neighbours. It has no `ensures`; `Text.JoinAround` and `Text.SplitJoin` use it. |
| Zootopia.CardDelimited | zootopia.py:121-130 | Every card is non-empty, begins with `<` and ends with `>`. |
| Zootopia.CardsHtmlEmpty | zootopia.py:131 | The joined card string is empty exactly when there are no animals. |
| Zootopia.CreateStrForTemplate | zootopia.py:112-131 | The card loop returns the join of one card per animal. The result is empty exactly when there are no animals. |
| PageProperties.CardsInOrder | zootopia.py:120-131 | Card `i` stands between the earlier cards and the later cards, separated from each by a blank line. |
| PageProperties.CardNoPlaceholder | zootopia.py:121-130 | A card whose field texts hold no two upper-case letters in a row does not contain the marker. |
| Text.Contains | zootopia.py:151 | The definition is the model of `in`: some index holds the pattern. `Text.ContainsIffSplit` ties it to the split. |
| Text.ContainsIffSplit | zootopia.py:151 | The marker is in the template exactly when splitting at it gives more than one piece. |
| Text.ReplaceAllIsJoin | zootopia.py:152-157 | Replacing every occurrence equals splitting at the pattern and joining with the replacement. |
| Text.ReplaceAll | zootopia.py:152-157 | The definition is the model of `str.replace`: scan from the left, replace each occurrence and continue after it. It has no `ensures`; `Text.ReplaceAllIsJoin` states its meaning. |
| Text.SplitHeadFirst | zootopia.py:152-157 | The first piece ends exactly at the leftmost occurrence, even when occurrences overlap, so the replacement follows Python's leftmost rule. |
| Text.SplitJoin | zootopia.py:152-157 | Joining the pieces back with the pattern gives the template. |
| Zootopia.Substitute | zootopia.py:144-158 | Gives "" for a missing template and for a template without the marker. Otherwise the result is the marker-free pieces of the template, joined by the cards. |
| Zootopia.UpdatedHtml | zootopia.py:144-158 | The definition is the specification of `create_updated_html`. It has no `ensures`; `Zootopia.CreateUpdatedHtml` is proved equal to it. |
| Zootopia.CreateUpdatedHtml | zootopia.py:134-158 | Returns the specification page `UpdatedHtml`. A missing template gives "". When every record normalises, a template without the marker gives "". The cards are built before the marker test, so a malformed document fails even then. |
| PageProperties.PlaceholderOnlyTemplate | zootopia.py:151-157 | A template that is only the marker becomes the card string itself. |
| PageProperties.NoPlaceholderLeft | zootopia.py:134-158 | If there is at least one animal and no field is a list or dict, the page contains no marker. |
| PageProperties.PlaceholderCanReappear | zootopia.py:149-158 | Without animals, the template `_` + marker + `_REPLACE_ANIMALS_INFO__` becomes the marker itself. |
| PageProperties.NoAnimalsPage | zootopia.py:144-157 | With an empty animal list the page is the template substituted with the empty card string. Every occurrence that the left-to-right scan finds is replaced by "", and a template without the marker gives "". The result can still hold a marker (`PageProperties.PlaceholderCanReappear`). |
| PageProperties.SubstituteNoPlaceholder | zootopia.py:151-157 | Substituting a marker-free card string that begins with `<` and ends with `>` leaves no marker in any template. |
| Zootopia.PersistUpdatedHtml | zootopia.py:167-179 | The guard itself: empty content is never saved, and other content is saved exactly when the write succeeds. Its consequence for the page is `PageProperties.NoSaveWithoutPage`. |
| PageProperties.NoSaveWithoutPage | zootopia.py:167-170 | When the page is built, which for a template without the marker needs every record to normalise, a missing template or a template without the marker gives "", and that page is never saved, whatever the write would do. |
| Scenarios.RecordDict | zootopia.py:63-92 | A record with a name, one location, a diet and a type normalises to the four formatted values. |
| Scenarios.FoxDict | zootopia.py:63-92 | The record `fox` / `forest` / `omnivore` / `mammal` becomes `Fox` / `Forest` / `Omnivore` / `Mammal`. |
| Scenarios.FoxPage | zootopia.py:134-158 | With a template that is only the marker, the fox document gives exactly the fox's card. |
| Scenarios.FoxCardNoPlaceholder | zootopia.py:121-130 | The fox's card holds no marker. |
| Scenarios.SingleRecordPage | zootopia.py:134-158 | With a template that is only the marker, one record gives exactly its card. With scalar fields no marker is left. |

## Left out

- `load_json` and `load_html` are left out because they read files. Their results are parameters: a parsed JSON value, or None when the file is missing or invalid, and the template text or None.
- `persist_updated_html` keeps only its empty-content guard. The file write and its `IOError` are a boolean parameter, and the printed messages are not modelled.
- `main` is left out because it only calls `create_updated_html` and `persist_updated_html` and prints messages.
- The file-name constants are left out: they matter only to the I/O that is not modelled.
- The module docstring (zootopia.py:1-4) says the program prints key details for each animal; no code does, so there is nothing to model.
- The diagnostic `print` in `create_updated_html` for a missing template (zootopia.py:145-147) is not modelled; only the "" it returns is.
- Text.Title: case mapping covers the ASCII letters only. Python's `str.title` also cases other Unicode letters, and folds some into several characters, and that is not modelled.
- JSON floating-point numbers are not modelled: a number is an integer.
- Json.Repr: the text of a list or dict field always quotes strings with `'` and escapes nothing. Python chooses `"` for a string that contains `'`, and escapes backslashes, the quote character and control characters.
- Json.Get: a JSON object is a sequence of key/value pairs, and a lookup returns the first entry. Python keeps the last of duplicate keys.
- Zootopia.CreateStrForTemplate: the card loop appends to a local list, and the model's sequence stands for that list. No list is shared or mutated by reference.
- `persist_updated_html` returns False both for skipped empty content and for a failed write (zootopia.py:170, 179), and the model follows the code.
