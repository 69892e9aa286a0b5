# Meta ad intake: case lookup, document provisioning and ad append, in Dafny

This project models the logic in `utils.py` of the Meta ad intake tool (a Streamlit form that
files advertising creatives into one Google Doc per customer case). Everything else in the
repository is Google API and Streamlit plumbing. The model has three parts:

- **Case lookup** (`get_case_id_by_email`). The master sheet is a header row plus data rows of
  strings. `worksheet.find` is the first cell, in row-major order, whose whole text equals the
  input (case-sensitive). `get_all_records` builds one dict per data row from the header. The
  lookup returns None when reading the sheet fails, when the sheet is empty, when no cell equals
  the email exactly, or when no record matches. Otherwise it returns the first
  case-id value of the first record whose email-like key holds the address, compared after
  trimming and lower-casing. It is written as a method with the source's loops
  (`CaseLookup.GetCaseIdByEmail`) and proved equal to a recursive specification
  (`CaseLookup.LookupCaseId`). Lemmas about that specification state the first-match-wins
  behaviour in both directions.
- **Naming rules**. The document name is `case_id + "_meta廣告上刊文件"`. The customer folder is
  `case_id.split("_")[0]`. The block name is `ad_name_id + "_" + image_name_id`, and a missing
  field shows as `None`. The ad block text is laid out line by line.
- **Find-or-create provisioning and append**. Drive and Docs are one value
  (`Drive.Store`). It holds the listed files `(id, name, kind, parents, trashed)`, the id the
  next created file gets, the permissions granted, and each document's body text. Find, create,
  share, provision and append are functions on that value. The class
  `Services.GoogleServices` holds the same fields and its methods change them step by step, as
  the source's methods do. Each method is proved against its function. Lemmas about the
  functions state reuse, exactly-one-creation, idempotence and preservation of the body.

Modules: `Wrappers` (Option, Result), `Text` (Python's `in`, `strip`, `lower`), `Naming`,
`CaseLookup`, `Drive`, `Services`.

Facts about the code that shape the model:

- The code never uses a root folder `Meta_Ads_System`. `create_folder` creates the customer
  folder with no parent, and `find_folder_in_drive` searches every folder the account can see.
- `append_ad_data_to_doc` inserts plain text at `endIndex - 1`, before the final newline of the
  body. It inserts no table and no image.
- The record scan recognises a case-id key only by `案件編號` or `case`. The wider alias list
  (`id`, `編號`, `案件`) appears only in the header scan of lines 76-97, whose result is unused.
- Before the scan runs, lookup demands a cell exactly equal to the input (line 100). An address
  in other case, or with surrounding spaces, is therefore not found (see Findings).

## Model

| member | source | states |
|---|---|---|
| Text.StripLeadingSpec | utils.py:120 | `lstrip` removes a leading run of whitespace and nothing else; what is left does not start with whitespace |
| Text.StripTrailingSpec | utils.py:120 | `rstrip` removes a trailing run of whitespace and nothing else; what is left does not end with whitespace |
| Text.StripSpec | utils.py:120 | `strip()` yields a slice of its input, and everything cut away on both sides is whitespace |
| Text.StripEnds | utils.py:120 | what `strip()` keeps is empty, or neither starts nor ends with whitespace |
| Text.LowerSpec | utils.py:115 | `lower()` keeps the length and maps each character independently |
| Text.ContainsSpec | utils.py:120 | `sub in s` holds exactly when `sub` occurs at some index of `s` |
| Naming.DocName | utils.py:192 | the document name is the case id followed by `_meta廣告上刊文件` |
| Naming.DocNameInjective | utils.py:192 | two different case ids never get the same document name |
| Naming.FirstSegment | utils.py:210 | `split("_")[0]` is a prefix of the id, contains no `_`, and ends at the first `_` or at the end of the id |
| Naming.FolderName | utils.py:209-212 | the folder name is a prefix of the id with no `_`; it is the whole id when there is no `_`, and otherwise stops at the first `_` |
| Naming.FolderNameOfPrefixed | utils.py:209-212 | an id made of `p`, then `_`, then anything, where `p` has no `_`, routes to folder `p` |
| Naming.SharedPrefixSameFolder | utils.py:209-212 | two case ids that agree up to and including their first `_` route to the same folder |
| Naming.FolderNameIsFirstSegment | utils.py:209-212 | the two branches agree: the folder name is always `split("_")[0]` |
| Naming.Field | utils.py:238 | a field present in the ad shows its value, and a missing one shows as `None` |
| Naming.BlockName | utils.py:238 | the block name starts with the ad id, has `_` right after it, and ends with the image id |
| Naming.BlockNameSplits | utils.py:238 | when the ad id has no `_`, the block name splits back into the ad id and the image id |
| Naming.FormatBlock | utils.py:243-254 | every ad block opens with two newlines, a rule and the line `廣告組合 ID: ` with its block name, and closes with a rule and a newline |
| Naming.NikeFolder | utils.py:209-212 | case `NIKE_2024` is filed in folder `NIKE` |
| Naming.NikeDocument | utils.py:192 | case `NIKE_2024` gets document `NIKE_2024_meta廣告上刊文件` |
| Naming.NikeBlock | utils.py:238 | ad `A01` with image `Pic01` is block `A01_Pic01` |
| CaseLookup.KeyIndex | utils.py:115 | finds the first place of a key in a dict, or reports that the key is absent |
| CaseLookup.Put | utils.py:115 | assigning a dict key keeps keys unique: a present key stays in place and takes the new value, and a new key goes last |
| CaseLookup.DictOf | utils.py:112-115 | building a dict gives unique keys, and its key set is the key set of the items |
| CaseLookup.DictOfSpec | utils.py:112-115 | in a dict built from items, each key holds the value of the last item with that key, and keys keep the order of their first occurrence |
| CaseLookup.DictOfUnique | utils.py:112-115 | items whose keys are already distinct become the dict unchanged |
| CaseLookup.Records | utils.py:112 | `get_all_records` yields one record per data row |
| CaseLookup.RowRecordSpec | utils.py:112 | a row's record has unique keys, its keys are the header cells, and each key holds the row's cell in the last column with that header, or the empty string when the row is shorter |
| CaseLookup.RecordsSpec | utils.py:112 | the same for record `i` of the sheet and data row `i` |
| CaseLookup.Lowered | utils.py:115 | the normalised record has unique keys, even when lower-casing makes two keys collide |
| CaseLookup.LoweredSpec | utils.py:115 | the normalised keys are the lower-cased record keys, and each holds the value of the last record key that lowers to it |
| CaseLookup.NormalisedRecords | utils.py:113-115 | one normalised record per data row |
| CaseLookup.EmailFoundSpec | utils.py:118-122 | `found_email` is set exactly when some key contains `email` or `信箱` and its trimmed, lower-cased value equals the trimmed, lower-cased input |
| CaseLookup.FirstCaseValue | utils.py:126-128 | the result is None exactly when no key contains `案件編號` or `case`; otherwise it is the value of the first such key |
| CaseLookup.FirstCaseId | utils.py:113-128 | a value the scan returns is the case id that some record contributes |
| CaseLookup.FirstCaseIdNone | utils.py:113-130 | the scan finds nothing exactly when no record both matches the email and has a case-id key |
| CaseLookup.FirstCaseIdSome | utils.py:113-128 | the scan returns `v` exactly when the first record that matches and has a case-id key yields `v` |
| CaseLookup.FindInRow | utils.py:100 | the first column of a row whose cell equals the input exactly, or None when no cell does |
| CaseLookup.FindCell | utils.py:100-101 | `worksheet.find` finds nothing exactly when no cell equals the input; otherwise it finds the first equal cell in row-major order |
| CaseLookup.LookupCaseId | utils.py:64-133 | a returned value comes from a sheet that was read, is not empty and has a cell equal to the input, and it is the case id some normalised record contributes |
| CaseLookup.LookupNoneCases | utils.py:64-133 | None exactly when the read raises, the sheet has no values, no cell equals the email, or no record contributes |
| CaseLookup.LookupSomeCharacterised | utils.py:100-128 | a returned value passed the exact-cell gate and is the first case-id value of the first contributing record |
| CaseLookup.ScanEmail | utils.py:118-122 | the loop sets `found_email` exactly when some item of the record holds the address |
| CaseLookup.ScanCase | utils.py:124-128 | the loop returns the value of the first case-id key, or nothing when there is none |
| CaseLookup.ScanRecord | utils.py:118-128 | one record's two loops return its case id exactly when the record matches the address |
| CaseLookup.GetCaseIdByEmail | utils.py:60-133 | the loops over records and over record items return exactly the lookup's specification |
| CaseLookup.EmailFoundCanonical | utils.py:120 | whether a record matches depends on the input only through its trimmed, lower-cased form |
| CaseLookup.FirstCaseIdCanonical | utils.py:113-128 | the record scan depends on the input only through its trimmed, lower-cased form |
| CaseLookup.LookupCaseIdIntended | utils.py:112-130 | without the gate of line 100, a returned value is the case id some normalised record contributes |
| CaseLookup.LookupIsGatedIntended | utils.py:100-101 | the lookup as written is the case-insensitive scan behind the exact-match gate of `worksheet.find` |
| CaseLookup.IntendedLookupIgnoresCaseAndSpace | utils.py:113-128 | without the gate, two inputs with the same trimmed, lower-cased form get the same answer |
| CaseLookup.ExampleExactAddress | utils.py:100-128 | a sheet holding `a@x.com` of case `NIKE_2024` answers `NIKE_2024` for `a@x.com` |
| CaseLookup.ExampleMixedCaseMissed | utils.py:100-101 | as written, that sheet answers None for `A@X.com `, although it normalises to the stored address |
| CaseLookup.ExampleMixedCaseIntended | utils.py:113-128 | without the gate, that sheet answers `NIKE_2024` for `A@X.com ` |
| Drive.FirstListed | utils.py:136-141 | the first answer of the query lies within the listing |
| Drive.FirstListedSpec | utils.py:136-141 | the query answers nothing exactly when no untrashed entry has that name and kind; otherwise it answers the earliest such entry |
| Drive.Find | utils.py:137-149 | the search finds nothing exactly when no untrashed entry has the name and kind; otherwise it finds the id of the earliest such entry |
| Drive.FirstListedAppend | utils.py:136-141 | files listed later do not change an existing first answer; otherwise the first answer comes from the later files |
| Drive.FindAppend | utils.py:137-149 | the same property for the id that `find_file_in_drive` and `find_folder_in_drive` return |
| Drive.Create | utils.py:150-168 | a created file takes the next id, and the next id advances |
| Drive.CreateFresh | utils.py:150-168 | a created file gets an id no listed file has, existing entries are kept, and the store stays valid: ids distinct and below the next id, and exactly the documents have well-formed bodies |
| Drive.CreateFolder | utils.py:150-157 | one parentless folder is added and nothing else changes; a search for its name then finds the earliest folder of that name, the new one when there was none |
| Drive.CreateDoc | utils.py:158-168 | one document is added with an empty body, inside the folder when one is given; a search for its title then finds the earliest document of that title, the new one when there was none |
| Drive.Share | utils.py:169-185 | the permission set grows by exactly the grant and nothing else changes; a repeated grant changes nothing |
| Drive.EnsureFolder | utils.py:214-218 | a search for the folder name then finds the returned id; an existing folder changes nothing; no document search, body or grant changes |
| Drive.EnsureDoc | utils.py:186-231 | a search for the case's document name then finds the returned id, and the customer and the administrator both hold writer grants on it |
| Drive.EnsureDocReusesExisting | utils.py:193-203 | when a document of the computed name exists, its first listed id is returned and no file or body changes |
| Drive.EnsureDocCreatesOne | utils.py:204-231 | otherwise exactly one document is added, named for the case, with an empty body, and its only parent is the folder a search for the prefix now finds; a folder is added only when none of that name existed, and the new document is then what a search finds |
| Drive.EnsureDocValid | utils.py:186-231 | provisioning keeps ids distinct and fresh, keeps exactly the documents holding bodies, and keeps bodies well formed |
| Drive.EnsureDocIdempotent | utils.py:193-203 | a second provisioning of the same case returns the same id and changes nothing; with another customer it only adds that customer's grant |
| Drive.EndIndex | utils.py:273-274 | for a well-formed body, `endIndex - 1` is the index of its final newline |
| Drive.InsertText | utils.py:275-285 | the text goes in before the character at the index, and what lies on either side is kept |
| Drive.AppendText | utils.py:272-285 | the body stays well formed and grows by exactly the text's length |
| Drive.AppendKeepsBody | utils.py:272-285 | the append keeps every character before `endIndex - 1`, adds exactly the block there, and leaves the body ending in its newline |
| Drive.AppendAll | utils.py:272-285 | any number of appends leave a well-formed body |
| Drive.AppendAllInOrder | utils.py:272-285 | successive appends keep earlier blocks intact and in order: original text, the blocks in append order, then the final newline |
| Drive.AppendAd | utils.py:272-285 | the append fails exactly when the id is not that of a listed document |
| Drive.AppendAdChangesOneBody | utils.py:272-285 | an append changes only the target document's body, in the way `AppendKeepsBody` describes, and keeps the store valid |
| Services.GoogleServices.constructor | utils.py:21-59 | the service starts on the given valid Drive state |
| Services.GoogleServices.FindFileInDrive | utils.py:134-141 | returns the id of the first untrashed document with that name, or None when there is none |
| Services.GoogleServices.FindFolderInDrive | utils.py:142-149 | returns the id of the first untrashed folder with that name, or None when there is none |
| Services.GoogleServices.CreateFolder | utils.py:150-157 | appends one folder with no parent under a fresh id |
| Services.GoogleServices.CreateDoc | utils.py:158-168 | appends one document under a fresh id, inside the folder when one is given, with an empty body |
| Services.GoogleServices.ShareFile | utils.py:169-185 | adds a grant of the role to the email on the file |
| Services.GoogleServices.EnsureDocExistsAndShare | utils.py:186-231 | find, then maybe create a folder, then create the document, then share: the new state and the id are exactly `Drive.EnsureDoc` |
| Services.GoogleServices.AppendAdDataToDoc | utils.py:232-286 | an unknown document fails and changes nothing; otherwise the block is inserted at `endIndex - 1`, as `Drive.AppendAd` states, and the block name is returned |
| Services.ProvisionTwice | utils.py:186-231 | two provisioning calls for the same case return the same id, and the state after both equals the state after one |

## Left out

- Credential resolution (utils.py:22-59): Streamlit secrets, file checks and the directory scan are environment I/O. The constructor takes a Drive state instead.
- The header-index scan (utils.py:76-97) and `row_values` (utils.py:107): their results feed only a log message and are otherwise unused.
- The timestamp of utils.py:241 and the first `requests` list (utils.py:255-267): neither is used. The list is overwritten at 275 before any call.
- Network failures of the Sheets, Drive and Docs calls: a failed sheet read is the `Unreachable` case. Drive calls in provisioning always succeed. For the append, only an unknown document id is modelled as a failure.
- Services.GoogleServices.ShareFile: it adds the grant to a set. The batched request and its error callback, which swallows failures, are not modelled.
- Drive query escaping: a name containing a quote breaks the query string. The model treats names as plain values.
- Drive listing order: the files are listed in the order they were created, so "first" means first in that sequence.
- File ids: ids are natural numbers handed out in sequence. Real ids are opaque non-empty strings.
- Trashing: no modelled operation trashes a file. The flag only excludes entries from search.
- gspread behaviour of `get_all_records`: numeric coercion is not modelled, so `str(v)` is the cell text. Current gspread releases raise an error when the header row repeats a name, two blank header cells included, unless `expected_headers` is given; the lookup then returns None. The model does not raise: it builds the record with the last column of each name and scans on. A row shorter than the header reads as empty cells. Cells beyond the header width are dropped, and only the empty-named keys could hold them, which match neither pattern.
- Drive.EndIndex: Docs counts indices in UTF-16 code units, and the model counts one per character. The two agree for text inside the Basic Multilingual Plane. A character outside it counts two in Docs, and the model does not capture that; the insertion point is still just before the final newline.
- Text.LowerChar: `str.lower()` is modelled for ASCII capitals only. Case mapping outside ASCII is not modelled.
- Concurrent provisioning: two sessions can race and create duplicate folders or documents. The model runs one call at a time.
- `document_utils.py` (contract boilerplate through python-docx), `email_service.py` (SMTP) and `app.py` (UI and quota display) are not part of this model.

## Findings

| source | as written | input that shows it | evidently intended | confidence | as-written member | corrected member |
|---|---|---|---|---|---|---|
| utils.py:100 | `worksheet.find(email)` must find a cell exactly equal to the raw input before the trimmed, case-insensitive comparison of line 120 ever runs | sheet `[["Email","Case ID"],["a@x.com","NIKE_2024"]]` with input `"A@X.com "` yields None | the comparison of line 120 decides, so the input finds `NIKE_2024` | medium, not executed; this rests on gspread's `find` matching whole cells case-sensitively, which is its default | CaseLookup.ExampleMixedCaseMissed | CaseLookup.IntendedLookupIgnoresCaseAndSpace |

`CaseLookup.GetCaseIdByEmail` keeps the code's behaviour, gate included. `CaseLookup.LookupCaseIdIntended` is the lookup without the gate. `CaseLookup.LookupIsGatedIntended` relates the two, and `CaseLookup.ExampleMixedCaseIntended` shows the corrected lookup on the input above.
