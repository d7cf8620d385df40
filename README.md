# USP certificate lookup — verified model of the record builder

`app.py` is a Streamlit page. For each product code of the USP reference-standard
catalog, it opens the product's catalog page and reads the rows of the
certificate table. Each row becomes one record: product code, cleaned lot
number, validity in Brazilian date form, and link to the lot's certificate PDF.
This project models the deterministic string-processing core of that page in
Dafny and proves its properties. The modules are:

- `Text` (`text.dfy`) models Python's `str.strip()`, `in` on strings, and
  `str.split(',')` for a one-character separator.
- `LotNumber` (`lot_number.dfy`) models `re.sub(r'\s*\(.*?\)', '', lot)`.
  It is a left-to-right scan that drops every match: optional whitespace, `(`,
  the shortest run of non-newline characters, `)`.
- `ValidityDate` (`validity_date.dfy`) models the validity normalisation:
  - "Current" anywhere gives "Vigente";
  - otherwise `strptime` with `%Y-%m-%d`, then with `%d-%b-%Y`, is printed back as
    `%d/%m/%Y`;
  - otherwise the result is "Data Inválida".

  The `strptime` model follows CPython's `_strptime` directive patterns:
  - `%Y` is exactly four digits;
  - `%m` is `1[0-2]|0[1-9]|[1-9]`;
  - `%d` is `3[01]|[12]\d|0[1-9]|[1-9]| [1-9]`;
  - `%b` is an English month abbreviation in any letter case.

  The whole text must match, and the date must exist in the proleptic Gregorian
  calendar, years 1 to 9999.
- `Certificate` (`certificate.dfy`) models the catalog-page and certificate-PDF
  URL templates.
- `Catalog` (`catalog.dfy`) models the row loop of `scrape_with_catalog`. It is a
  method with a loop, proved against the recursive specification `Extract`.
- `Keywords` (`keywords.dfy`) models how the keyword list is built from
  spreadsheet codes and typed-in text.

The browser and the HTML parser become an input: the certificate tables' rows,
in document order, each a sequence of cell texts. `None` stands for a failed page
load or wait.

Two behaviours of the code are worth stating plainly:
- The regular expression deletes each `(...)` group that its left-to-right scan
  finds, together with the whitespace run before it (which may be empty), anywhere
  in the lot number, not only at its end. The output can still hold parentheses:
  `"(\n(x))"` becomes `"()"`.
- A row with fewer than three cells raises `IndexError` at app.py:74 or app.py:75.
  The `except Exception` at app.py:95 catches it, so the product code yields `[]`
  and an error message.

## Model

| member | source | states |
|---|---|---|
| Text.Strip | app.py:74-75 | `strip()` yields text that is empty or has no whitespace at either end, and is never longer than the input |
| Text.StripSlice | app.py:74-75 | `strip()` removes only whitespace, at the two ends: the result is a slice of the input with whitespace before and after it |
| Text.StripIdempotent | app.py:152 | stripping twice is stripping once |
| Text.StripKeepsOut | app.py:152 | stripping introduces no character that was not there |
| Text.Contains | app.py:79 | the left-to-right scan for the marker: it finds nothing in a text shorter than the marker and always finds the marker at the end of the text; ContainsIff ties it to an occurrence at any index |
| Text.ContainsIff | app.py:79 | `"Current" in s` holds exactly when the marker occurs at some index of `s` |
| Text.Split | app.py:149 | `split(',')` yields at least one piece, and no piece contains the separator |
| Text.SplitCount | app.py:149 | `split(',')` yields one piece more than there are commas |
| Text.JoinSplit | app.py:149 | joining the pieces of `split(',')` with ',' gives back the text |
| Text.SplitJoin | app.py:149 | splitting a join of comma-free pieces gives back the pieces |
| Text.SplitNoSep | app.py:149 | text without a comma splits into itself alone |
| LotNumber.FindClose | app.py:76 | the lazy `.*?\)` stops at the first ')' that no newline precedes, and fails when there is none |
| LotNumber.MatchLen | app.py:76 | one attempt of `\s*\(.*?\)` at the start of a string: a match found there has length 2 to the length of the string |
| LotNumber.MatchLenCorrect | app.py:76 | the match length found at the start of a string is the length of the shortest match of `\s*\(.*?\)` there, with the whole whitespace run; no length matches when none is found |
| LotNumber.MatchLenRun | app.py:76 | a match skips the whole leading whitespace run, then needs '(' and a closing ')' |
| LotNumber.CleanLot | app.py:76 | the cleanup never makes the lot number longer |
| LotNumber.CleanLotUnchangedIff | app.py:76 | the cleanup leaves the text unchanged exactly when no match starts anywhere in it, and shortens it otherwise |
| LotNumber.CleanLotNoParen | app.py:76 | text without '(' is returned unchanged |
| LotNumber.CleanLotKeepsStretch | app.py:76 | a stretch where no match starts is copied to the output unchanged |
| LotNumber.CleanLotKeepsPlain | app.py:76 | a prefix with no whitespace and no '(' is kept in front of the cleanup of the rest |
| LotNumber.CleanLotDropsGroup | app.py:76 | a space-prefixed group without newline or inner ')' vanishes entirely |
| LotNumber.CleanLotDropsNote | app.py:76 | a plain lot number followed by one such annotation keeps only the lot number |
| LotNumber.CleanLotDropsBareGroup | app.py:76 | a group with no whitespace before it, without newline or inner ')', vanishes and the '('-free text after it stays |
| LotNumber.CleanLotInnerGroupExample | app.py:76 | "12(ab)34" becomes "1234" |
| LotNumber.CleanLotLeavesParensExample | app.py:76 | "(\n(x))" becomes "()": a '(' whose group would cross a newline stays, and so does a ')' left after a match |
| LotNumber.CleanLotExample | app.py:76 | "1234567 (previously 7654321)" becomes "1234567" |
| ValidityDate.MakeDate | app.py:83 | a date is built exactly when month and day exist in that year |
| ValidityDate.LeapDay | app.py:83 | February 29 exists exactly in Gregorian leap years |
| ValidityDate.Pad2 | app.py:83 | `%d` and `%m` output: two digits whose value is the number |
| ValidityDate.Pad4 | app.py:83 | `%Y` output: four digits whose value is the year |
| ValidityDate.YearField | app.py:83 | `%Y` accepts exactly four digits, read as their decimal value |
| ValidityDate.MonthField | app.py:83 | `%m` accepts exactly the one- or two-digit texts naming a month 1 to 12, padded or not, and returns that month |
| ValidityDate.DayField | app.py:83 | `%d` accepts exactly the one- or two-digit texts naming a day 1 to 31, and a space followed by a nonzero digit, and returns that day |
| ValidityDate.MonthNameField | app.py:86 | `%b` accepts three letters that, lower-cased, are the abbreviation of the month it returns; other three-letter texts name no month |
| ValidityDate.FieldEnd | app.py:83 | a one- or two-character field ends at the first '-', in second or third position |
| ValidityDate.ParseIso | app.py:83 | a successful `%Y-%m-%d` parse is a valid calendar date |
| ValidityDate.ParseAbbrev | app.py:86 | a successful `%d-%b-%Y` parse is a valid calendar date |
| ValidityDate.ParseIsoFields | app.py:83 | every spelling `%Y-%m-%d` allows is read field by field, and the calendar check decides |
| ValidityDate.ParseIsoSpelled | app.py:83 | whatever the ISO parse accepts is such a spelling of the date it returns |
| ValidityDate.ParseAbbrevFields | app.py:86 | every spelling `%d-%b-%Y` allows is read field by field, and the calendar check decides |
| ValidityDate.ParseAbbrevSpelled | app.py:86 | whatever the abbreviated-month parse accepts is such a spelling of the date it returns |
| ValidityDate.ParsersExclusive | app.py:82-88 | no text parses in both formats, so the fallback order never changes the date that is shown |
| ValidityDate.Display | app.py:83 | `strftime("%d/%m/%Y")` has the shape DD/MM/YYYY, and its three fields read back as day, month and year |
| ValidityDate.DisplayInjective | app.py:83-86 | distinct valid dates are shown as distinct DD/MM/YYYY strings |
| ValidityDate.NormaliseDate | app.py:79-88 | the result is "Vigente" exactly when "Current" occurs in the text; it is always "Vigente", "Data Inválida" or a DD/MM/YYYY string |
| ValidityDate.CurrentAnywhere | app.py:79-80 | "Current" anywhere in the text gives "Vigente", whatever surrounds it |
| ValidityDate.NormaliseIsoFields | app.py:81-83 | an ISO spelling is shown as its date, or as "Data Inválida" when that day does not exist |
| ValidityDate.NormaliseAbbrevFields | app.py:84-88 | an abbreviated-month spelling is shown as its date, or as "Data Inválida" when that day does not exist |
| ValidityDate.IsoRoundTrip | app.py:83 | a shown date written back in ISO form is shown the same way again |
| ValidityDate.Year2024 | app.py:83 | "2024" is read as the year 2024 |
| ValidityDate.IsoExample | app.py:83 | "2024-05-01" becomes "01/05/2024" |
| ValidityDate.UnpaddedIsoExample | app.py:83 | "2024-5-1" becomes "01/05/2024" |
| ValidityDate.AbbrevExample | app.py:86 | "01-May-2024" becomes "01/05/2024" |
| ValidityDate.MayIsMonthFive | app.py:86 | "May" is month 5 |
| ValidityDate.CommonYearLeapDayExample | app.py:83-88 | "2023-02-29" does not parse and becomes "Data Inválida" |
| ValidityDate.NotADateExample | app.py:87-88 | "not-a-date" becomes "Data Inválida" |
| ValidityDate.CurrentExample | app.py:79-80 | "Current" becomes "Vigente" |
| Certificate.ProductPageUrl | app.py:57 | the catalog page is the store prefix followed by the product code |
| Certificate.ProductPageUrlInjective | app.py:57 | different product codes load different catalog pages |
| Certificate.CertificateUrl | app.py:91 | the link is the certificate prefix, the code, '-', the cleaned lot and ".pdf", each at its fixed place |
| Certificate.CertificateUrlSeparatesLots | app.py:91 | for one product code, different lots get different links |
| Certificate.CertificateUrlInjective | app.py:91 | when codes contain no '-', the link determines both code and lot |
| Certificate.CertificateUrlAmbiguous | app.py:91 | with a '-' in the code the link no longer determines code and lot: ("A-B", "C") and ("A", "B-C") give the same link |
| Catalog.RowRecord | app.py:74-92 | a row's record carries the product code and a lot no longer than cell 0; its validity is one of the three forms, "Vigente" exactly when stripped cell 2 contains "Current"; its link is built from the code and that lot |
| Catalog.AllRowsCompleteCons | app.py:73-75 | a table has all its cells exactly when its first row does and the rest of the table does |
| Catalog.Extract | app.py:70-97 | the records of all rows in order, one per row and the first from the first row, or None when a row has fewer than three cells |
| Catalog.ExtractFailsIff | app.py:73-97 | row extraction fails exactly when some row has fewer than three cells |
| Catalog.ExtractPerRow | app.py:73-92 | when extraction succeeds, there is one record per row, in row order, each made from its own row |
| Catalog.ScrapeRows | app.py:68-97 | the loop reports failure exactly when some row is short and then yields `[]`; otherwise it yields one record per row, in order |
| Catalog.ScrapeWithCatalog | app.py:56-97 | it loads the product's catalog page; a failed load, like a short row, gives `[]` with the failure reported; otherwise the records are exactly `Extract` of the rows |
| Keywords.KeepStripped | app.py:152 | the comprehension is never longer than its input |
| Keywords.KeepStrippedEntries | app.py:152 | every entry the comprehension keeps is non-empty and stripped |
| Keywords.KeptIndicesExact | app.py:152 | a piece is kept exactly when its stripped text is not empty |
| Keywords.KeptIndicesIncrease | app.py:152 | the kept positions are positions of the input, in increasing order |
| Keywords.KeepStrippedAt | app.py:152 | entry `i` of the result is the stripped piece at the `i`-th kept position |
| Keywords.KeepStrippedOrder | app.py:152 | the comprehension keeps order and drops exactly the blank pieces, each kept entry being its stripped piece |
| Keywords.KeepStrippedAppend | app.py:143-152 | the comprehension over spreadsheet codes followed by typed pieces is the two comprehensions concatenated |
| Keywords.KeepStrippedIdempotent | app.py:152 | applying the comprehension to its own output changes nothing |
| Keywords.NormaliseKeywords | app.py:138-152 | the keyword list has at most one entry per spreadsheet code and per comma-separated piece, each entry stripped and non-empty |
| Keywords.FileCodesFirst | app.py:143-152 | spreadsheet codes come first, in their order, then the typed codes |
| Keywords.TypedKeywordsHaveNoComma | app.py:148-152 | without a spreadsheet, no keyword contains a comma |
| Keywords.SingleCode | app.py:148-152 | typed text without a comma or surrounding blanks is the single keyword |

## Left out

- The Selenium driver: its setup, the Chrome binary check, `driver.get`, the 20-second wait and `driver.quit()`. These drive an external browser; their outcome is the `rows` input (`None` when loading or waiting raised inside the `try`).
- Catalog.ScrapeWithCatalog: the cases where `scrape_with_catalog` itself raises are not modelled. `get_driver()` can raise at app.py:50, before the `try` of app.py:59. It can also return `None` at app.py:41; then app.py:60 raises, and `driver.quit()` in the `finally` at app.py:99 raises `AttributeError`, which replaces the `[]` the handler returned. In both cases only the caller's handler at app.py:162 catches the exception. The model instead reports every failure as `[]` with `failed`.
- BeautifulSoup: finding the `usp-certificates` divs, their `tbody`, and the `tr` and `td` elements of each. This is a foreign HTML parser; the model takes the rows of all tables, already flattened in document order, as a sequence of cell-text sequences.
- The error messages shown through `st.error`. The model keeps only whether one was shown (`failed`).
- The Streamlit page: session state, buttons, the search history and the rendering of the results table. The loop over keywords that concatenates the per-code results is UI glue.
- pandas: reading the spreadsheet is a parameter (`fileCodes`, already converted to text). The `"nan"` that `astype(str)` gives an empty cell, and a spreadsheet that fails to load, are whatever the caller passes.
- Text.Strip: whitespace is space, tab, newline and carriage return. Python's `strip()` also removes the other Unicode whitespace characters.
- LotNumber.CleanLot: `\s` is the same four characters. Python's `re` treats all Unicode whitespace as `\s`.
- ValidityDate.YearField, ValidityDate.MonthField, ValidityDate.DayField: only ASCII digits are accepted. Python's `\d` also accepts other Unicode decimal digits.
- ValidityDate.MonthNameField: the month abbreviations are those of the C locale, which Python keeps unless `setlocale` is called; `%b` reads the locale's `calendar.month_abbr`, so another locale gives other names.
- ValidityDate.MonthNameField: letters are case-folded in ASCII only. `re.IGNORECASE` also folds a few non-ASCII letters onto ASCII ones, but `_strptime` then looks the lower-cased text up among the ASCII month names, so such a spelling is rejected in both and the result is the same.
- ValidityDate.Pad4: the year is always printed with four digits. That is exact for years 1000 to 9999. Below 1000, the C library's `strftime("%Y")` prints no leading zeros.
