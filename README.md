# Link Transformer & Uploader — a Dafny model

This is a model of the two batch operations of the "Link Transformer & Uploader" Streamlit app (`app.py`).

- **Drive Link Transformer** (tab 1). `transform_gdrive_link` searches a link for `/d/<id>/preview`. Here `<id>` is one or more characters from `[a-zA-Z0-9_-]`. It turns the identifier of the leftmost match into `https://drive.google.com/uc?export=download&id=<id>`. The tab applies it to every non-blank line of its text area. The text area is stripped once as a whole and then split at newlines. A line that does not match becomes `Invalid link: ` followed by that line as split, with its own whitespace kept. The first and last lines have already lost their outer whitespace to the first strip.
- **ImgBB Bulk Uploader** (tab 2). The API key is checked first, then the text area. For each non-blank line, the tab downloads the stripped link. It uploads the bytes only if the download gave some. It records the hosted URL, or `Failed to upload: <line>`, or `Failed to download: <line>`, where `<line>` is the line as split from the stripped text area.

Modules:

- `Wrappers`: `Option` and `Result`.
- `Seqs`: generic facts about slicing sequences, with `Filter`, `Positions` and `Map`.
- `PyText`: the Python `str` behaviour the app relies on.
  - `isspace` and `strip()`, with Python's full whitespace set.
  - `split('\n')`, which always yields at least one piece.
- `DriveLink`: the regular expression and `re.search`.
  - `SegmentAt(s, i, id)` says, character by character, that the pattern matches at `i` with group `id`.
  - `MatchAt` is the greedy engine at one position.
  - `SearchFrom` tries positions left to right.
- `LinkBatch`: tab 1's loop, as a method with loop invariants.
- `UploadBatch`: tab 2's loop, as methods. The network is an input.
  - `replies[k]` is what the network answers for the k-th non-blank line: the downloaded bytes or nothing, then the hosted URL or nothing.
  - The methods also return the log of requests they would send. Lemmas state the order of those requests.

## Model

| member | source | states |
|---|---|---|
| DriveLink.SegmentUnique | app.py:10 | at one position at most one identifier can match, because `/` is not in the class |
| DriveLink.MatchAtExact | app.py:10-11 | the greedy engine finds a group at `i` exactly when the pattern matches there with that group (both directions) |
| DriveLink.SearchFromSpec | app.py:11 | the search returns the leftmost match at or after `i`, and returns nothing only when nothing matches from `i` on |
| DriveLink.TransformSpec | app.py:8-16 | `None` exactly when the link holds no `/d/<id>/preview`; otherwise the download prefix followed by a non-empty identifier from `[a-zA-Z0-9_-]` that holds no `/` |
| DriveLink.TransformPicksLeftmost | app.py:11-15 | with several matches, the URL carries the identifier of the leftmost one |
| DriveLink.SuffixIgnored | app.py:11-15 | text appended after a link that already matches does not change the result |
| DriveLink.ContextIgnored | app.py:10-15 | a prefix without a match of its own (not ending in `/d`), then `/d/<id>/preview`, then any text, gives the URL for `<id>` |
| DriveLink.PreviewLinkExample | app.py:69 | the help-text example `https://drive.google.com/file/d/YOUR_FILE_ID/preview` becomes `https://drive.google.com/uc?export=download&id=YOUR_FILE_ID` |
| DriveLink.EarlierSegmentEndsFirst | app.py:10 | a match that starts earlier also ends no later |
| PyText.StripSpec | app.py:73-74 | `strip()` returns the infix between an all-whitespace prefix and an all-whitespace suffix; when non-empty, it neither starts nor ends with whitespace |
| PyText.StripEmpty | app.py:73 | `s.strip()` is empty (false) exactly when `s` is all whitespace |
| PyText.StripIdempotent | app.py:79 | stripping an already stripped line changes nothing |
| PyText.SplitSpec | app.py:74 | no piece of `split('\n')` holds a newline, and joining the pieces with newlines gives the text back |
| PyText.SplitJoin | app.py:74 | splitting undoes joining for newline-free pieces |
| LinkBatch.InputLines | app.py:73-74 | the lines are empty exactly for a whitespace-only text area; otherwise they hold no newline and join back to the stripped text |
| LinkBatch.InputLinesUnique | app.py:74 | newline-free pieces that join back to the stripped text area are exactly the lines, so the lines are the split at every newline |
| LinkBatch.NonBlankInOrder | app.py:77-78 | the loop works on exactly the lines whose `strip()` is non-empty, in input order, each at its position |
| LinkBatch.OutputClassified | app.py:79-83 | an entry starts with the download prefix exactly when the stripped line matched; otherwise it is `Invalid link: ` followed by the line as split, not stripped again |
| LinkBatch.TransformLinks | app.py:73-83 | one entry per non-blank line, in order; entry k is the URL for the k-th non-blank line (stripped) or its invalid-link marker |
| LinkBatch.BlankInputNoOutput | app.py:73 | a whitespace-only text area gives no entries, and any other text area gives at least one |
| UploadBatch.UploadLinks | app.py:116-142 | empty key: the key error with no request sent; blank text area: the links error with no request sent; otherwise one entry per non-blank line, in order, with the requests of those lines in order |
| UploadBatch.ProcessLink | app.py:131-142 | one non-blank line: GET of the stripped line; POST of its bytes under the key only if the GET gave data; entry is the hosted URL if non-empty, else an upload or download failure naming the line as split, not stripped again |
| UploadBatch.ProcessLinks | app.py:130-142 | blank lines are skipped; the entries and the request log are those of the non-blank lines, in order |
| UploadBatch.OutcomesAt | app.py:130-142 | entry k is the outcome of the k-th non-blank line with the k-th reply |
| UploadBatch.OutcomeReportsExchanges | app.py:134-142 | a download failure exactly when only the GET went out; a hosted URL exactly when the POST answered with a non-empty URL; a failure names the line it was given, not stripped |
| UploadBatch.UploadOnlyAfterDownload | app.py:134-136 | every POST comes right after a GET that gave data and sends those bytes with the key; every GET that gave data is followed right away by that POST |
| UploadBatch.FetchesFollowLinks | app.py:130-134 | the GETs go out for the stripped lines, one per line, in order |
| UploadBatch.FailureTextsDiffer | app.py:140-142 | the upload-failure and download-failure strings start with their own messages and never coincide |

The operations themselves are these members; the rows above state what is proved about them.

- `DriveLink.TransformGdriveLink` is `transform_gdrive_link` (app.py:8-16), built on `DriveLink.SearchFrom` (the `re.search` at app.py:11) and `DriveLink.MatchAt` (the pattern at app.py:10).
- `PyText.Strip` is `str.strip()` and `PyText.Split` is `str.split('\n')` (app.py:73-74, 78-79).
- `LinkBatch.InputLines` gives the lines of app.py:73-74, and `LinkBatch.LineOutput` gives the entry for one line (app.py:79-83).
- `UploadBatch.Outcome` gives the entry for one line (app.py:134-142), `UploadBatch.LinkExchanges` the requests for it (app.py:134-136), and `UploadBatch.Text` the string appended for an entry (app.py:138-142).

## Left out

- The Streamlit interface is not modelled: page set-up, tabs, columns, text areas, buttons, `st.code`, `st.error`, the status text and the clipboard JavaScript. The model takes the text areas and the key as string inputs. It returns the results as a sequence, not as the newline-joined block shown on screen.
- `download_image` and `upload_to_imgbb` are not modelled beyond what they return. The network is the `replies` input, and their answers stand in as `Option` values.
  - No bytes: any exception or any status other than 200 on the GET. A `BytesIO` is always true, so any body, even an empty one, counts as data.
  - No URL: any exception or any status other than 200 on the POST. A JSON reply without `data.url` raises and is caught, so it also gives no URL.
  - A JSON `url` that is not a string is not modelled. The hosted URL is a string.
- Base64 encoding of the image and the ImgBB endpoint address are not modelled. The log records the raw bytes and the key of each POST.
- The progress bar (a floating-point fraction) and `time.sleep(0.1)` are not modelled.
- UploadBatch.UploadLinks: the results are `Entry` values rather than strings. `UploadBatch.Text` gives the exact string the app appends for each.
