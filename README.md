# Note-taking app core, modelled in Dafny

The project is a small note-taking web application (an Express server backed by
MongoDB). All of its logic is in `index.js`, and this model covers four pieces of it:

- **Bootstrap** (`bootstrap.dfy`). `initMongo` connects to the store. After every
  failed attempt it logs a message, waits one second and starts over. Once an
  attempt connects, it returns the `notes` collection. The recursion is written
  as a loop that counts failures. It runs over a finite sequence of connect
  outcomes.
- **Note store** (`notes.dfy`). The `notes` collection is a class holding a
  `seq<Note>`.
  - `saveNote` (`insertOne`) appends one record with a fresh `_id`.
  - `retrieveNotes` is a pure projection. It reverses the stored order and
    replaces each description by its rendering under `marked`. Every other
    field (the `_id`) is copied.
- **Upload binder** (`upload_binder.dfy`, `uri_component.dfy`). The preview
  body is `${description} ![${originalname}](/uploads/${encodeURIComponent(filename)})`.
  `encodeURIComponent` follows section 19.2.6 of ECMA-262 (URI Handling
  Functions). Letters, digits and `-_.!~*'()` are kept. Every other character
  becomes the `%XX` escapes of its UTF-8 bytes, with upper-case hexadecimal as
  in section 2.1 of RFC 3986. A decoder (`decodeURIComponent`) is included as
  the encoder's inverse.
- **Submission dispatch** (`note_route.dfy`). The `POST /note` handler is a
  three-way decision on the submitted form:
  - **Save**: store the description and redirect to `/`.
  - **Preview**: show the feed together with the unsaved composed body.
  - **Ignore**: do nothing and send no response.

The Markdown renderer is the parameter `render: string -> string`. The model
never looks inside it.

Two behaviours of the code worth knowing, both kept by the model:

- The save branch is taken when the `upload` field is falsy and the description
  is truthy. The code does not check whether a file came with the form, so a
  form with a description, a file and no flag is saved and the file is ignored.
- In the preview branch an absent description is printed by the template
  literal as `undefined`, and the model does the same (`TemplateText`).

## Model

| member | source | states |
|---|---|---|
| `Bootstrap.Text` | index.js:17-21 | the exact console text of the two log lines: `Initialising MongoDB...` and `Error connecting to MongoDB, retrying in 1 second` |
| `Bootstrap.RetryLog` | index.js:17-21 | the log of k failed attempts has 2k lines, alternating the "Initialising MongoDB..." line and the retry message |
| `Bootstrap.RetryLogCounts` | index.js:17-23 | k failed attempts log the retry message exactly k times and the initialising line k times |
| `Bootstrap.InitMongo` | index.js:16-25 | the number of failures is the number of leading failed outcomes; it returns the `notes` collection of the given database exactly when some attempt connects, and then that attempt is a success; the log is one line per attempt plus one retry message per failure, so the retry message appears exactly as often as there were failures |
| `Bootstrap.ConnectAfterFailures` | index.js:16-25 | if the first k attempts fail and attempt k+1 connects, the collection is returned after exactly k retry messages |
| `Notes.Rendered` | index.js:29-32 | a rendered note keeps its id, and its description is `render` of the stored one |
| `Notes.Reversed` | index.js:29 | same length, with element i taken from position n-1-i |
| `Notes.RenderAll` | index.js:29-32 | same length, with element i being the rendered element i |
| `Notes.RetrieveNotes` | index.js:28-32 | exactly as many notes as are stored; the note at position i has the id of stored note n-1-i and `render` of stored note n-1-i's description; the stored sequence is an argument and is never modified |
| `Notes.RetrieveAfterSave` | index.js:28-34 | retrieving after appending note x gives rendered x first, followed by the earlier retrieval |
| `Notes.RetrieveTwoSaves` | index.js:28-34 | after saving A and then B, retrieval lists B and then A |
| `Notes.RetrievedNewestFirst` | index.js:28-34 | when ids increase in insertion order, the retrieved feed has strictly decreasing ids: newest note first, and no note listed twice |
| `Notes.NoteStore.SaveNote` | index.js:34 | appends exactly one record, with the given description and an id that no stored record has; earlier records are unchanged; the invariant of increasing ids, which stands for MongoDB's unique `_id`, is kept |
| `Notes.SaveThenRetrieve` | index.js:28-34 | after a save, a retrieval is one note longer, lists the new note first (its description rendered) and then the notes retrieved before |
| `UriComponent.HexDigit` | index.js:60 | an upper-case hexadecimal digit whose value is the given nibble |
| `UriComponent.PercentByte` | index.js:60 | `%` followed by two upper-case hexadecimal digits whose value is the byte |
| `UriComponent.Percents` | index.js:60 | three characters per byte, each a `%` or an upper-case hexadecimal digit |
| `UriComponent.Utf8` | index.js:60 | from one to four bytes; the lead byte announces the length; the rest are continuation bytes; a single byte exactly for code points below 0x80 |
| `UriComponent.Utf8RoundTrip` | index.js:60 | UTF-8 decoding gives the character back |
| `UriComponent.IsUnreserved` | index.js:60 | the characters `encodeURIComponent` leaves alone: ASCII letters, digits and `-_.!~*'()` |
| `UriComponent.EncodeChar` | index.js:60 | a character is copied as itself exactly when it is unreserved; otherwise it becomes three characters per UTF-8 byte, starting with `%` |
| `UriComponent.PercentsEscapes` | index.js:60 | every `%` written for a byte sequence is followed by two upper-case hexadecimal digits |
| `UriComponent.EncodeCharEscapes` | index.js:60 | an escaped character's text has only upper-case `%XX` escapes, and reading them back gives exactly its UTF-8 bytes |
| `UriComponent.EscapesUpperCase` | index.js:60 | every `%` in an encoding is followed by two upper-case hexadecimal digits, so no escape is ever written in lower case |
| `UriComponent.EncodeURIComponent` | index.js:60 | the encoding is at least as long as the input |
| `UriComponent.EncodedAlphabet` | index.js:60 | every output character is unreserved, `%` or an upper-case hexadecimal digit |
| `UriComponent.EscapedBytesOfPercents` | index.js:60 | reading back n escapes gives the n bytes that were written |
| `UriComponent.DecodeEncodeChar` | index.js:60 | decoding one encoded character followed by anything gives that character followed by the decoding of the rest |
| `UriComponent.DecodeEncode` | index.js:60 | `decodeURIComponent(encodeURIComponent(s)) === s` for every string |
| `UriComponent.EncodeInjective` | index.js:60 | distinct file names get distinct encodings |
| `UriComponent.EncodeUnreservedUnchanged` | index.js:60 | a name made only of unreserved characters is its own encoding |
| `UriComponent.EncodeSingle` | index.js:60 | a one-character string encodes as that character's `EncodeChar` |
| `UriComponent.EncodeAppend` | index.js:60 | encoding distributes over concatenation |
| `UriComponent.SlashAlwaysEscaped` | index.js:60 | a `/` never appears in an encoding |
| `UriComponent.EncodeSpaceExample` | index.js:60 | `a b.png` encodes as `a%20b.png` |
| `UploadBinder.UploadLink` | index.js:60 | the link starts with `/uploads/` |
| `UploadBinder.UploadLinkSingleSegment` | index.js:60 | no `/` follows the `/uploads/` prefix |
| `UploadBinder.UploadLinkDotSegments` | index.js:60 | the text after `/uploads/` is `.` or `..` exactly when the filename is that name, since `.` is kept unescaped |
| `UploadBinder.UploadLinkDecodes` | index.js:60 | decoding the part after `/uploads/` gives the stored filename back |
| `UploadBinder.PreviewContent` | index.js:62 | the template literal `${description} ![${originalname}](${link})` with the link to the stored file (its properties are stated by the three lemmas below) |
| `UploadBinder.PreviewContentParts` | index.js:62 | the content is the description, then ` ![`, then the original name, then `](`, then the link, then `)` |
| `UploadBinder.PreviewLinksStoredFile` | index.js:60-62 | the text between `](/uploads/` and the final `)` of the content decodes to the stored filename (a statement about positions, not about how a Markdown parser reads a name containing `)`) |
| `UploadBinder.PreviewContentInjective` | index.js:60-62 | once the lengths of the description and of the original name are known, the content determines the description, the original name and the stored filename |
| `UploadBinder.PreviewWithSpaceExample` | index.js:60-62 | `hello`, `photo.png` and `a b.png` give `hello ![photo.png](/uploads/a%20b.png)` |
| `UploadBinder.PreviewUnreservedName` | index.js:60-62 | a stored name made of unreserved characters appears in the link as it is |
| `NoteRoute.Truthy` | index.js:56-59 | JavaScript truthiness of a form field: present and not the empty string |
| `NoteRoute.TemplateText` | index.js:62 | how the template literal prints a form field: its text, or `undefined` when it is absent |
| `NoteRoute.Route` | index.js:56-59 | save exactly when the upload flag is falsy and the description truthy; preview exactly when the flag is truthy and a file is present; neither exactly when the flag comes without a file, or when there is no flag and the description is empty or absent; the three cases are exclusive |
| `NoteRoute.PreviewOf` | index.js:60-62 | the preview body of a submission with a file: the description as the template literal prints it, then the image reference to the stored file |
| `NoteRoute.HandleNote` | index.js:55-66 | save appends one note carrying the submitted description and redirects to `/`; preview leaves the store unchanged and responds with the composed content and `retrieveNotes` of the unchanged store; a submission matching neither changes nothing and gets no response |
| `NoteRoute.PreviewThenSave` | index.js:56-64 | a preview stores nothing; submitting the previewed body afterwards as a plain description stores exactly that body as one new note and redirects |
| `NoteRoute.SaveScenario` | index.js:56-58 | `buy milk` with no flag and no file takes the save branch |
| `NoteRoute.PreviewScenario` | index.js:59-62 | `look` with the flag and `original.jpg` stored as `xyz123.jpg` takes the preview branch and yields `look ![original.jpg](/uploads/xyz123.jpg)` |

## Left out

- Express routing, the pug views, `res.render`, `res.redirect`, static file serving and the `GET /` route (index.js:39-49). They are framework I/O. A response is only an abstract `Response` tag carrying the view's data.
- The multer upload middleware and how it names stored files (index.js:54). `filename` and `originalname` are given strings.
- Constructing the MongoDB client and reading `dbName` from the driver's options (index.js:8-14). These are foreign library calls and configuration. The database name is a parameter of `InitMongo`.
- Markdown-to-HTML conversion by `marked` (index.js:31). It is the opaque parameter `render`.
- The one-second `setTimeout` between attempts, and console output (index.js:21-22). The log is a sequence of `LogLine` values; `Text` gives each one's exact message.
- Retrying forever when the store is never reachable. Connect outcomes are a finite sequence. `None` means the outcomes ran out while the real program would still be retrying.
- Store failures after bootstrap (`insertOne` or `find` rejecting). These are unhandled in the source. The model assumes these operations succeed.
- Concurrency between in-flight requests. Each request is handled on its own.
- MongoDB's `ObjectId`. It is modelled as a natural number from a counter. `find()` is taken to return records in insertion order.
- `encodeURIComponent` throwing `URIError` on a lone surrogate. A Dafny `char` is a Unicode scalar value, so the model has no lone surrogates.
- Form fields that arrive as arrays (a field repeated in one form). Every field is modelled as an absent-or-string value.
- UriComponent.EncodeURIComponent: its own contract states only a length bound. Its exact behaviour is stated by lemmas instead: `EncodeSingle` and `EncodeAppend` reduce it to the function `EncodeChar` character by character, `EncodeUnreservedUnchanged` keeps unreserved names, `EncodedAlphabet` fixes the output alphabet, `EscapesUpperCase` the upper-case escapes, and `DecodeEncode` the round trip.
