# Event tickets: pass packaging and attendee bookkeeping

A model of two parts of a small event-ticketing tool.

**Signed iOS pass packaging** (`generate_signed_pass` in `ios_pass_creator.py`).
It builds the pass record for one ticket and writes it as `pass.json` into the
working directory `pass_output`. It adds two rendered images, `icon.png` and
`logo.png`, then writes `manifest.json`, which maps each of these three
resources to the hex SHA-1 of its bytes. It generates an RSA key
(exponent 65537, 2048 bits) and a self-signed certificate valid for 3650 days,
and signs the manifest bytes with PKCS #1 v1.5 over SHA-1. The last step packs
the five files into a `.pkpass` ZIP archive.
- The working directory is a class, `Directory`, whose file map the steps update.
- The archive is a class, `ZipArchive`, whose entry list grows with each write.
- The hash, the signature and the image renderer are functions held in a
  `Platform` value.
- The random key material, the certificate serial and the two clock readings
  are an `Entropy` input.

**Attendee import and ticket-type editing** (`load_csv` and `save_changes` in
`main.py`, under the schema of `create_database.py`). The SQLite database is the
class `TicketDatabase`. Its fields are:
- the Events, Attendees and Tickets tables;
- their AUTOINCREMENT counters;
- the rows of the on-screen tree;
- the set of ticket types the schema's CHECK admits.

`LoadCsv` gets or creates the selected event, checks the CSV header, and
inserts one attendee and one `Normal` ticket per row, with the derived barcode.
`SaveChanges` writes the tree's ticket types back through the attendee-ticket
join. The schema's constraints are checked where a statement would break them:
- the `ticket_type` CHECK;
- the UNIQUE barcode;
- the NOT NULL attendee name and phone.

A refused statement raises. SQLite undoes that statement alone, and the
handlers let the exception escape with their transaction open and uncommitted.
The transaction is discarded when the connection is finalised; the model
restores the last committed tables at once.

Supporting modules:
- `Decimal`: the decimal rendering of ids and its reading back.
- `Hex`: the `hexdigest` rendering of bytes and its inverse.
- `Json`: the text Python's `json` module writes, compact for `pass.json` and
  `indent=4` for `manifest.json`. A reader for each form proves that the
  written text reads back as the value it was written from.
- `Results`: an `Option` type.

## Model

| member | source | states |
|---|---|---|
| Decimal.NatToString | main.py:77 | An id's decimal text is a non-empty string of digits that starts with `0` only for 0 |
| Decimal.IntToString | ios_pass_creator.py:40 | An integer's text is the decimal text of its magnitude, preceded by `-` exactly when it is negative |
| Decimal.NatToStringRoundTrip | main.py:77 | Reading an id's decimal text back gives the id |
| Decimal.NatToStringInjective | main.py:77 | Distinct ids have distinct decimal texts |
| Decimal.CanonicalDigits | main.py:93 | A digit string is the decimal text of its own value exactly when it has no leading zero (or is one digit), which is how a digit-only tree cell comes back |
| Hex.HexValue | ios_pass_creator.py:81 | Every lowercase hex character is the digit of its value |
| Hex.HexValueOfDigit | ios_pass_creator.py:81 | Each nibble's hex digit reads back as that nibble |
| Hex.HexByte | ios_pass_creator.py:81 | A byte renders as two lowercase hex characters |
| Hex.ToHex | ios_pass_creator.py:81 | A hex digest has two lowercase hex characters per byte |
| Hex.ToHexAt | ios_pass_creator.py:81 | Byte i of the input is rendered at characters 2i and 2i+1 |
| Hex.FromHexToHex | ios_pass_creator.py:81 | Decoding a hex digest gives back the digest bytes |
| Hex.ToHexInjective | ios_pass_creator.py:81 | Distinct digests have distinct hex texts |
| Json.Hex4 | ios_pass_creator.py:66 | A `\u` escape's code is four lowercase hex digits |
| Json.Hex4RoundTrip | ios_pass_creator.py:66 | The four hex digits of a code unit read back as that code unit |
| Json.SurrogatePair | ios_pass_creator.py:66 | A code point above the BMP splits into a high and a low surrogate that recombine to it |
| Json.EscapeCons | ios_pass_creator.py:66 | A string's escape is its first character's escape followed by the rest's |
| Json.EscapeIsPrintable | ios_pass_creator.py:66 | The escaped text of any string is printable ASCII |
| Json.QuoteIsPrintable | ios_pass_creator.py:66 | A quoted string literal is printable ASCII |
| Json.DumpsIsPrintable | ios_pass_creator.py:66 | The compact JSON text of any value, `pass.json` included, is printable ASCII |
| Json.DumpsItemsIsPrintable | ios_pass_creator.py:66 | The items of a JSON array are written as printable ASCII |
| Json.DumpsMembersIsPrintable | ios_pass_creator.py:66 | The members of a JSON object are written as printable ASCII |
| Json.EscapeChar | ios_pass_creator.py:66 | One character as `json.dump` escapes it: the short escapes, printable ASCII as itself, other BMP characters as `\uXXXX`, others as a surrogate pair |
| Json.Escape | ios_pass_creator.py:66 | A string's escaped text, character by character |
| Json.Quote | ios_pass_creator.py:66 | A string literal: the escaped text between double quotes |
| Json.Dumps | ios_pass_creator.py:66 | The compact text `json.dump` writes, with `, ` and `: ` separators |
| Json.DumpsIndent4 | ios_pass_creator.py:89 | The `indent=4` text of a flat object of strings, `{}` when empty |
| Json.DigitRun | ios_pass_creator.py:66 | The digit run at the front of a text is within it and all digits |
| Json.ReadNumber | ios_pass_creator.py:66 | Reading a number consumes input |
| Json.ReadValue | ios_pass_creator.py:66 | Reading a compact value consumes input |
| Json.ReadItems | ios_pass_creator.py:66 | Reading array items consumes input |
| Json.ReadMember | ios_pass_creator.py:66 | Reading an object member consumes input |
| Json.ReadMembers | ios_pass_creator.py:66 | Reading object members consumes input |
| Json.DigitRunDigits | ios_pass_creator.py:66 | The digit run of digits followed by a non-digit is exactly those digits |
| Json.ReadNumberBody | ios_pass_creator.py:66 | Digits, with or without a minus sign, read back as their value, signed |
| Json.ReadNumberIntToString | ios_pass_creator.py:66 | Every integer's text reads back as the integer, leaving what follows |
| Json.DumpsStart | ios_pass_creator.py:66 | The compact text of a value is non-empty and does not start with `]` or `}` |
| Json.DumpsItemsStart | ios_pass_creator.py:66 | The items of a non-empty array do not start with `]` |
| Json.DumpsMembersStart | ios_pass_creator.py:66 | The members of a non-empty object start with a quote |
| Json.ReadValueEmptyArray | ios_pass_creator.py:66 | `[]` reads back as the empty array |
| Json.ReadValueArray | ios_pass_creator.py:66 | `[`, items and `]` read back as the array of those items |
| Json.ReadValueEmptyObject | ios_pass_creator.py:66 | `{}` reads back as the empty object |
| Json.ReadValueObject | ios_pass_creator.py:66 | `{`, members and `}` read back as the object of those members |
| Json.ReadValueOpen | ios_pass_creator.py:66 | After a `[` or `{` that opens a non-empty array or object, reading goes on with the items or members |
| Json.ReadItemsLast | ios_pass_creator.py:66 | The last item and `]` read back as that one item |
| Json.ReadItemsNext | ios_pass_creator.py:66 | An item, `, ` and more items read back as that item followed by the others |
| Json.ReadMemberQuote | ios_pass_creator.py:66 | A key, `: ` and a value read back as that member |
| Json.ReadMembersLast | ios_pass_creator.py:66 | The last member and `}` read back as that one member |
| Json.ReadMembersNext | ios_pass_creator.py:66 | A member, `, ` and more members read back as that member followed by the others |
| Json.ReadMembersOne | ios_pass_creator.py:66 | A key, `: `, a value and `}` read back as that one member |
| Json.ReadMembersCons | ios_pass_creator.py:66 | A key, `: `, a value, `, ` and more members read back as that member followed by the others |
| Json.DumpsMembersCons | ios_pass_creator.py:66 | The text of two or more members is the first member, `, ` and the others |
| Json.ReadValueDumps | ios_pass_creator.py:66 | The compact text of every value reads back as the value, leaving what follows |
| Json.ReadItemsDumps | ios_pass_creator.py:66 | The items of every non-empty array and `]` read back as the items |
| Json.ReadMembersDumps | ios_pass_creator.py:66 | The members of every non-empty object and `}` read back as the members, in order |
| Json.ReadMembersDumpsLast | ios_pass_creator.py:66 | One member and `}` read back as that member |
| Json.ReadMembersDumpsNext | ios_pass_creator.py:66 | Two or more members and `}` read back as those members, in order |
| Json.ReadJsonDumps | ios_pass_creator.py:66 | The compact text of every value reads back as that value and nothing more |
| Json.Indent4TailIsAscii | ios_pass_creator.py:89 | The member lines of an `indent=4` object are ASCII |
| Json.DumpsIndent4IsAscii | ios_pass_creator.py:89 | The `indent=4` manifest text is ASCII |
| Json.Member | ios_pass_creator.py:39-58 | A member found under a key is one of the object's members with that key |
| Json.FirstWithKey | ios_pass_creator.py:83-87 | A key is found exactly when some member has it, and the value found is that member's |
| Json.Keys | ios_pass_creator.py:83-87 | The keys are the members' keys, position by position |
| Json.FirstWithKeyDistinct | ios_pass_creator.py:83-87 | With distinct keys, looking up member i's key finds member i's value |
| Json.FirstWithKeyAt | ios_pass_creator.py:83-87 | Looking up a key finds the first member that has it |
| Json.ReadHex4 | ios_pass_creator.py:66 | A read `\u` code is below 0x10000 and consumed four characters |
| Json.ReadChar | ios_pass_creator.py:66 | Reading one string character always consumes input |
| Json.ReadEscapeShort | ios_pass_creator.py:66 | The two-character escapes read back as their characters |
| Json.ReadEscapePrintable | ios_pass_creator.py:66 | Printable ASCII other than quote and backslash reads back as itself |
| Json.ReadHex4Hex4 | ios_pass_creator.py:66 | Four written hex digits read back as the code unit |
| Json.ReadEscapeBmp | ios_pass_creator.py:66 | A BMP character escaped as `\uXXXX` reads back as itself |
| Json.ReadSurrogates | ios_pass_creator.py:66 | A surrogate pair of escapes reads back as the one code point it encodes |
| Json.ReadEscapeAstral | ios_pass_creator.py:66 | A character above the BMP, escaped as a surrogate pair, reads back as itself |
| Json.ReadEscapeChar | ios_pass_creator.py:66 | Every character's escape reads back as that character, leaving the rest of the text |
| Json.ReadBodyEscape | ios_pass_creator.py:66 | Any escaped string followed by a quote reads back as the string |
| Json.ReadQuotedQuote | ios_pass_creator.py:66 | Any quoted string literal reads back as the string |
| Json.ReadMemberLine | ios_pass_creator.py:89 | A manifest line reads back as its key and its value |
| Json.ReadIndent4MembersUnfold | ios_pass_creator.py:89 | Reading manifest lines takes one member and then the lines after it |
| Json.ReadIndent4MembersLast | ios_pass_creator.py:89 | The last manifest line, before the closing brace, reads back as its member |
| Json.ReadIndent4MembersNext | ios_pass_creator.py:89 | A manifest line followed by more lines reads back as its member followed by theirs |
| Json.ReadIndent4MembersRoundTrip | ios_pass_creator.py:89 | The member lines of a non-empty manifest read back as its members, in order |
| Json.ReadDumpsIndent4 | ios_pass_creator.py:88-89 | The `indent=4` text of a string-valued object reads back as the object, members in order |
| IosPassCreator.StagedPathInjective | ios_pass_creator.py:65 | Distinct file names have distinct paths in the working directory |
| IosPassCreator.PassData | ios_pass_creator.py:39-58 | The pass record for one ticket |
| IosPassCreator.PassDataKeyNamesDistinct | ios_pass_creator.py:39-58 | The eight keys of the pass record are distinct |
| IosPassCreator.PassDataKeys | ios_pass_creator.py:39-45 | The pass record is an object with the eight keys in the order of the literal, `formatVersion` 1, pass type `pass.com.example.event`, team `ABCDE12345`, organisation `Kai Events` and description `Event Ticket` |
| IosPassCreator.BarcodeDescriptorFields | ios_pass_creator.py:46-50 | The barcode entry holds the message, QR format and `iso-8859-1` encoding |
| IosPassCreator.SerialNumberIsBarcodeMessage | ios_pass_creator.py:42-47 | The serial number and the barcode message are both the ticket's barcode |
| IosPassCreator.EventTicketFields | ios_pass_creator.py:51-57 | The primary field carries the event; the secondary fields carry the name and the ticket type, in that order |
| IosPassCreator.AsciiBytes | ios_pass_creator.py:65-66 | Text-mode writing of ASCII text gives one byte per character, equal to its code |
| IosPassCreator.BytesTextAsciiBytes | ios_pass_creator.py:88-89 | ASCII text written in text mode reads back, byte for byte, as the same text |
| IosPassCreator.PassJson | ios_pass_creator.py:65-66 | The bytes written to `pass.json`: the compact text of the pass record |
| IosPassCreator.PassJsonReadsBack | ios_pass_creator.py:65-66 | The bytes of `pass.json`, read back as text and parsed, are the pass record |
| IosPassCreator.ManifestJson | ios_pass_creator.py:88-89 | The bytes written to `manifest.json`: the `indent=4` text of the manifest |
| IosPassCreator.Resources | ios_pass_creator.py:64-76 | The three staged resources, `pass.json`, `icon.png` and `logo.png`, in staging order |
| IosPassCreator.Manifest | ios_pass_creator.py:83-87 | Each resource name paired with the hex SHA-1 of its bytes, in staging order |
| IosPassCreator.GeneratedKey | ios_pass_creator.py:92-96 | The generated RSA key has exponent 65537 and 2048 bits |
| IosPassCreator.SelfSignedCertificate | ios_pass_creator.py:98-114 | The certificate issued to and by "Test Certificate" for the key's public half |
| IosPassCreator.PkPass | ios_pass_creator.py:129-134 | The archive entries: the resources, the manifest and its signature |
| IosPassCreator.ClientAccepts | ios_pass_creator.py:79-126 | What a pass reader checks: each manifest digest against the archived bytes, and the signature over the manifest |
| IosPassCreator.Lookup | ios_pass_creator.py:129-134 | An archive lookup finds a name exactly when some entry has it, and returns that entry's bytes |
| IosPassCreator.ArchiveNamesDistinct | ios_pass_creator.py:130-134 | The five archive names are distinct |
| IosPassCreator.PkPassLayout | ios_pass_creator.py:129-134 | The archive holds exactly `pass.json`, `icon.png`, `logo.png`, `manifest.json`, `signature` in that order, with `pass.json` the given bytes |
| IosPassCreator.LookupDistinct | ios_pass_creator.py:129-134 | With distinct names, looking up entry i's name returns entry i's bytes |
| IosPassCreator.ManifestMatchesArchive | ios_pass_creator.py:83-87 | The manifest lists exactly the archived files other than itself and the signature, each with the 40-character lowercase hex SHA-1 of its archived bytes |
| IosPassCreator.SignatureCoversManifest | ios_pass_creator.py:117-126 | The archived signature is the PKCS #1 v1.5 SHA-1 signature of the archived manifest bytes |
| IosPassCreator.GeneratedPassAccepted | ios_pass_creator.py:79-134 | A reader that checks each manifest digest and the signature against the public key accepts every generated archive |
| IosPassCreator.CertificateWindow | ios_pass_creator.py:98-114 | The certificate is self-issued for "Test Certificate", carries the key's public half and the random serial, is signed with SHA-256, and its validity spans 3650 days plus the time between the two clock reads |
| IosPassCreator.EncodedCertificateWindow | ios_pass_creator.py:110-113 | With whole seconds as encoded, the window is at least 3650 days when the clock does not step back |
| IosPassCreator.Directory.constructor | ios_pass_creator.py:61 | The working directory starts with the given files |
| IosPassCreator.Directory.WriteFile | ios_pass_creator.py:65-66 | Writing a file replaces that path's contents and nothing else |
| IosPassCreator.Directory.ReadFile | ios_pass_creator.py:80-81 | Reading returns the file's current contents, or nothing when absent |
| IosPassCreator.ZipArchive.constructor | ios_pass_creator.py:129 | A new archive at the output path has no entries |
| IosPassCreator.ZipArchive.Write | ios_pass_creator.py:130-134 | Writing appends the file's current bytes under the archive name, when the file exists |
| IosPassCreator.Sha1File | ios_pass_creator.py:79-81 | A file's digest is the 40-character lowercase hex of the SHA-1 of its current bytes |
| IosPassCreator.StagedPathsDistinct | ios_pass_creator.py:65-134 | The five staged paths are distinct |
| IosPassCreator.StageResources | ios_pass_creator.py:64-76 | `pass.json` and the two images are written into the working directory, and nothing else changes |
| IosPassCreator.StagedEntries | ios_pass_creator.py:130-134 | The entries taken from the staged files carry the names asked for, in order |
| IosPassCreator.WriteManifest | ios_pass_creator.py:78-89 | The manifest pairs each resource with the digest of its staged bytes, and its `indent=4` text is written to `manifest.json` |
| IosPassCreator.SignManifest | ios_pass_creator.py:116-126 | The signature is made over the manifest bytes as read back and written to `signature` |
| IosPassCreator.PackArchive | ios_pass_creator.py:128-134 | A new archive at the output path holds the five staged files in order |
| IosPassCreator.StagedArchiveIsPkPass | ios_pass_creator.py:117-134 | Staged resources, their manifest and its signature pack into exactly the archive `PkPass` describes |
| IosPassCreator.StagedFilesHoldEntries | ios_pass_creator.py:65-134 | Staging the five files adds exactly the staged paths, keeps every other file, and the staged files read back as the entries |
| IosPassCreator.StagedFilesFrame | ios_pass_creator.py:65-126 | Staging adds exactly the five staged paths and leaves every other file as it was |
| IosPassCreator.StagedFilesRead | ios_pass_creator.py:129-134 | The staged files read back, by archive name, as the staged entries |
| IosPassCreator.StageSignedPass | ios_pass_creator.py:64-126 | After staging, signing and certifying, the directory holds the entries of `PkPass` under the generated key |
| IosPassCreator.PackSignedPass | ios_pass_creator.py:64-134 | The archive written is `PkPass` for the generated key, and the directory changes only at the five staged paths |
| IosPassCreator.GenerateSignedPass | ios_pass_creator.py:36-134 | The archive for a ticket is `PkPass` of its serialised pass record under an RSA key with exponent 65537 and 2048 bits, with the self-signed certificate; in the working directory only the five staged paths change (the archive's own path, `pass/final_signed_pass.pkpass` by default, lies outside it) |
| TicketManager.NamePrefix | main.py:77 | The upper-cased first three characters of a name, or all of a shorter name |
| TicketManager.Barcode | main.py:77 | The barcode of an imported ticket |
| TicketManager.TkCell | main.py:93 | A tree cell as it comes back: a digit string as the decimal text of its value, anything else unchanged |
| TicketManager.Upper | main.py:77 | Upper-casing keeps the length |
| TicketManager.LastSegmentAfterDash | main.py:77 | The text after the last dash of `p-digits` is the digits |
| TicketManager.BarcodeEndsWithAttendee | main.py:76-77 | A barcode ends, after its last dash, in the attendee id's decimal text |
| TicketManager.BarcodeLayout | main.py:77 | A barcode is the upper-cased first three characters of the name (fewer if it is shorter), the event id and the attendee id, joined by dashes |
| TicketManager.BarcodeInjective | main.py:75-77 | Barcodes of distinct attendees differ whatever their names and events |
| TicketManager.TkCellAlters | main.py:92-94 | A tree cell comes back changed exactly when it is a digit string with a leading zero |
| TicketManager.TkCellIdempotent | main.py:92-94 | A cell that has come back once comes back unchanged |
| TicketManager.ImportedRows | main.py:81 | The import adds one tree line per row |
| TicketManager.ImportedRowsEditorTypes | main.py:81 | Imported tree lines show a type the editor offers |
| TicketManager.MissingColumn | main.py:62-68 | The header passes exactly when it has all of `name`, `phone`, `email`; otherwise the first one missing, in that order, is reported |
| TicketManager.FindMissingColumn | main.py:64-68 | The header loop reports the column `MissingColumn` names |
| TicketManager.FindEvent | main.py:50-51 | The lookup finds an event exactly when one has that name, and returns the id of an event of that name |
| TicketManager.FindEventAppended | main.py:55-58 | After inserting a new name, the lookup finds the inserted event |
| TicketManager.GetOrCreateEventReuses | main.py:50-53 | An existing event is reused and nothing changes |
| TicketManager.GetOrCreateEventInserts | main.py:54-58 | A new name is inserted with the next AUTOINCREMENT id, larger than every existing one |
| TicketManager.GetOrCreateEvent | main.py:50-58 | Getting the selected event's id, inserting the event when no event has its name |
| TicketManager.GetOrCreateEventValid | main.py:50-58 | Getting or creating an event keeps the tables valid |
| TicketManager.ImportRow | main.py:71-80 | One row's attendee and `Normal` ticket inserts, refused when the name or phone is missing or the CHECK refuses `Normal` |
| TicketManager.ImportRows | main.py:70-81 | A refused import names one of the rows |
| TicketManager.ValidTables | create_database.py:6-35 | The tables as the schema and the import keep them: ids below their AUTOINCREMENT counters and increasing, ticket types the CHECK admits, each barcode ending in its attendee's id, tickets held by distinct attendees |
| TicketManager.ValidBarcodesUnique | create_database.py:30 | Valid tables hold pairwise distinct barcodes |
| TicketManager.FreshBarcode | main.py:75-80 | The barcode built for the next attendee id is not already taken |
| TicketManager.AppendValid | main.py:75-80 | Appending an attendee and its ticket with the next ids, an admitted type and its barcode keeps the tables valid |
| TicketManager.ImportRowAccepted | main.py:70-80 | A row with a name and phone is accepted when the CHECK admits `Normal`, and the tables stay valid |
| TicketManager.ImportedContentStep | main.py:70-81 | Importing one more row adds exactly one attendee and one ticket for it |
| TicketManager.ImportRowsContent | main.py:70-81 | A finished import adds, row by row, one attendee with the row's values and one `Normal` ticket with design `default` and the derived barcode, and nothing else |
| TicketManager.ImportRowsValid | main.py:70-83 | A finished import keeps the tables valid |
| TicketManager.ImportRowsComplete | create_database.py:18-19 | A finished import means every row had a name and a phone |
| TicketManager.ImportRowsRejected | create_database.py:18-19 | The import is refused exactly when some row lacks a name or phone, and then at the first such row |
| TicketManager.ImportRowsStops | main.py:70-81 | Once the import stops at row k, later rows make no difference |
| TicketManager.FirstMatch | main.py:95-100 | The join finds nothing exactly when no ticket belongs to an attendee of that name and phone; otherwise it finds a ticket's id |
| TicketManager.RowMatch | main.py:92-100 | The ticket the join finds for a tree row, with the row's cells as they come back |
| TicketManager.Refused | main.py:103 | A row whose UPDATE the CHECK refuses: it finds a ticket and carries a type the CHECK does not admit |
| TicketManager.SaveRow | main.py:92-103 | One tree row's lookup and UPDATE |
| TicketManager.SaveRows | main.py:92-103 | The tree rows' UPDATEs in tree order, failing at the first refused one |
| TicketManager.SetTicketType | main.py:103 | The UPDATE keeps the number of tickets |
| TicketManager.FirstMatchSameKeys | main.py:95-103 | Ticket-type updates do not change what the join finds |
| TicketManager.RefusedSameKeys | main.py:95-103 | Ticket-type updates change neither the row's match nor whether its UPDATE is refused |
| TicketManager.SetTicketTypeSameKeys | main.py:103 | An UPDATE keeps every ticket's id, attendee, event, barcode and design |
| TicketManager.SaveRowsFrom | main.py:92-103 | A save from row k is row k's update followed by the save of the rows after it |
| TicketManager.SaveRowsFails | main.py:92-104 | A save fails exactly when some tree row's UPDATE is refused by the CHECK |
| TicketManager.SaveRowsEffect | main.py:92-103 | A successful save changes only ticket types; a ticket takes the type of the last tree row that finds it, and a ticket no row finds is unchanged |
| TicketManager.SaveRowsAdmitted | create_database.py:29 | After a successful save each ticket's type is unchanged or admitted by the CHECK |
| TicketManager.SaveRowsValid | main.py:89-104 | A successful save keeps the tables valid |
| TicketManager.SchemaRefusesEditorChoice | create_database.py:29 | As written, the editor's `VVIP` is outside the schema's CHECK, so a save of a matched `VVIP` row fails |
| TicketManager.IntendedAdmitsEditorChoices | main.py:116 | Under the CHECK the editor calls for, every editor choice and the import's `Normal` are admitted, so every save succeeds |
| TicketManager.TkCellNeverLeadingZero | main.py:93 | No tree cell comes back as a digit string with a leading zero, whatever it held |
| TicketManager.LeadingZeroPhoneSkipped | main.py:93-101 | As written, no tree row finds a ticket whose attendee's phone is digits with a leading zero |
| TicketManager.LeadingZeroPhoneTicketKept | main.py:92-104 | As written, a successful save leaves the ticket of an attendee whose phone has a leading zero as it was |
| TicketManager.LeadingZeroPhoneFindsStripped | main.py:93-103 | As written, a row whose phone has a leading zero comes back without it and finds the ticket of an attendee whose phone is the shorter number |
| TicketManager.TextRowMatch | main.py:95-100 | The join on the name and phone as stored finds nothing exactly when no ticket belongs to an attendee of that name and phone |
| TicketManager.ImportedRowsFound | main.py:70-100 | With the lookup on the stored text, every imported tree line finds a ticket of an attendee with that line's name and phone |
| TicketManager.ImportedContentFound | main.py:70-100 | The text lookup of row k of an import finds a ticket |
| TicketManager.ImportedRowOwnTicket | main.py:70-100 | With the lookup on the stored text, an imported line whose name and phone no earlier attendee shares finds the ticket the import made for it |
| TicketManager.ImportedContentOwnTicket | main.py:70-100 | Row k's ticket is the first, in table order, held by an attendee with its name and phone, when no earlier attendee shares both |
| TicketManager.EarlierHolderDiffers | main.py:70-100 | Every attendee holding a ticket before row k's own differs from row k in name or phone, when no earlier attendee shares both |
| TicketManager.TicketDatabase.Valid | create_database.py:6-35 | The CHECK admits the import's `Normal`, the tables are valid, and every tree type came from the import or the editor |
| TicketManager.TicketDatabase.constructor | create_database.py:6-35 | A fresh database has empty tables, ids counting from 1, and an empty tree |
| TicketManager.TicketDatabase.SelectEvent | main.py:47-58 | The selected event is looked up or inserted with the next id, the tree is unchanged, and the tables stay valid |
| TicketManager.TicketDatabase.InsertRow | main.py:71-81 | A row is inserted exactly when the database accepts it, then shown in the tree; a row without name or phone changes nothing, and a refused ticket leaves its attendee inserted with its id consumed; the events are untouched |
| TicketManager.TicketDatabase.Restore | main.py:70-83 | The rollback returns the tables to the last commit and leaves the tree |
| TicketManager.TicketDatabase.InsertRows | main.py:70-83 | A finished import commits its tables and shows every row; a refused row rolls the tables back while the tree keeps the rows before it |
| TicketManager.TicketDatabase.LoadCsv | main.py:37-85 | A cancelled dialog or missing event changes nothing; the event is created and committed before the header check; a bad header imports nothing; otherwise the rows are imported or the import is refused at its first incomplete row |
| TicketManager.TicketDatabase.UpdatedTickets | main.py:92-103 | The loop ends with the saved tickets exactly when no UPDATE is refused, and otherwise reports the first refused row |
| TicketManager.TicketDatabase.SaveChanges | main.py:89-106 | A save commits the updated tickets, or changes nothing and names the first refused row; the tree is untouched and the tables stay valid; under the intended CHECK every save succeeds |
| TicketManager.TicketDatabase.SelectTicketType | main.py:116-127 | Choosing a type changes that tree line's type to the editor's choice and nothing in the database |

## Left out

- Sending the pass by e-mail (`ios_pass_creator.py:139` onward) and the Android pass generator are not part of this model; they only consume the archive.
- The internals of SHA-1, RSA key generation, PKCS #1 v1.5 signing, X.509 encoding and PNG drawing are abstract functions of `Platform`. The proofs hold for any such functions.
- The byte layout of the ZIP format is not modelled. An archive is its ordered list of names and contents. `zipfile` also stores each file's modification time, which the model does not record. Two runs do not give the same archive in any case: each draws a fresh RSA key (`ios_pass_creator.py:92-96`), so the `signature` entry differs.
- The clock is an input: the two clock readings are `Entropy.firstNow` and `Entropy.secondNow`.
- Creating the `pass_output` and `pass` directories is not modelled; the `Directory` holds file paths directly.
- IosPassCreator.Directory.ReadFile: returns `None` for a missing file where Python raises. In the pipeline every file read was written before, so that case does not arise.
- IosPassCreator.ZipArchive.Write: adds nothing for a missing file where Python raises. The pipeline proves every written file exists.
- Json.Dumps: covers the JSON values the pass record uses: strings, integers, arrays and objects. Floats, booleans and `null` are left out.
- The window itself (widgets, the event list refresh, `add_new_event`, the double-click geometry of `on_double_click`, message boxes) is left out. Only the tree's rows and the editor's choice are modelled.
- The file dialog is an `Option<CsvFile>` input. CSV parsing by `csv.DictReader` is not modelled: the input is the header (`None` for an empty file) and rows of optional values.
- TicketManager.UpperChar: upper-cases ASCII letters only, where Python also maps other scripts.
- TicketManager.FirstMatch: SQL leaves the order of a JOIN unspecified. The model takes the first ticket, in ticket-table order, of an attendee with that name and phone.
- TicketManager.TkCell: models only Tk's conversion of digit-only cells to integers. Other cell forms that Tk converts, such as a sign or surrounding spaces, are not modelled. A phone in the international form `+44…` loses its `+` the same way, the common international form, so such attendees are no more found by a save than those with a leading zero.
- Foreign keys are not enforced, matching SQLite's default. The Events date and location columns and the Users table are never written by the modelled code.
- The persistence of the database file across runs and its opening and closing are not modelled. One `TicketDatabase` object stands for the file.
- IosPassCreator.AsciiBytes: assumes POSIX newlines. A file opened with `"w"` turns each `\n` into `os.linesep`, so on Windows the `indent=4` manifest is written, read back, signed and archived with CR LF line ends.
- IosPassCreator.GenerateSignedPass: the archive is written at `output_path`, which the model keeps outside the working directory, as the default `pass/final_signed_pass.pkpass` is.
- The model applies the rollback of a refused import or save at once. In `main.py` the exception escapes with the connection still open, and Tk's error report keeps it alive, holding SQLite's write lock, until it is finalised; a later write meanwhile can wait out the 5-second timeout and fail with "database is locked". That lock is not modelled.

## Findings

| source | as written | input that shows it | evidently intended | confidence | as-written member | corrected member |
|---|---|---|---|---|---|---|
| main.py:93 | The tree hands back a digit-only cell as an integer, so a phone with a leading zero loses it and the join on `a.phone = ?` compares the shorter number | Import an attendee with phone `0123`, choose `VIP` for them and save: the join looks for phone `123`, finds no ticket, and the type stays `Normal`; an attendee with phone `123` and the same name would be updated instead | The join compares the name and phone as stored and shown, so every imported line finds a ticket of an attendee with that name and phone, and its own ticket when no attendee before it shares both | not executed | TicketManager.LeadingZeroPhoneSkipped | TicketManager.ImportedRowsFound |
| create_database.py:29 | The CHECK admits `WVIP`, `VIP`, `Normal`, `Staff`, but the editor offers `VVIP` (main.py:116) | Choose `VVIP` for an imported attendee in the tree, then save: the UPDATE violates the CHECK and nothing of the save is committed | The CHECK admits `VVIP`, so every type the editor offers can be saved | not executed | TicketManager.SchemaRefusesEditorChoice | TicketManager.IntendedAdmitsEditorChoices |
