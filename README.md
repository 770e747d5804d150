# EnvVault vault core in Dafny

EnvVault keeps a developer's secrets in one SQLite table, `secrets`, with the
columns `id INTEGER PRIMARY KEY AUTOINCREMENT`, `key TEXT UNIQUE` and
`value TEXT`. A small Rust library, `vault-core`, exposes this table to
Node.js. Its functions are:

- add, delete and update a secret;
- fetch one secret's full value;
- search the keys, and list the secrets with their values masked;
- import a `.env` text and export the table as `.env` text;
- write the secrets to `~/.envvault` as `export` lines and make the shell
  profiles source that file.

This project models that library and proves properties of the model.

- **`Vault.SecretStore`** is a class holding the table's rows and the
  AUTOINCREMENT counter. `init_database` is its constructor, and every
  other exported function except `get_envvault_file_path`, which is left
  out, is one of its methods:
  - the record-changing functions update the fields;
  - the query functions return values;
  - the import is a loop with invariants, like the `for` loop in the source.
- **`Table`** holds the SQL semantics as functions on row sequences:
  - INSERT OR REPLACE;
  - DELETE and UPDATE by id;
  - SELECT by id;
  - ORDER BY key with a LIMIT;
  - the projection to masked items.

  It also holds the invariants the table keeps: keys are unique, rowids
  ascend, and rowids never exceed the counter.
- **`SqlLike`** models `LIKE … COLLATE NOCASE`. Both `%` and `_` are
  wildcards, and letters match ignoring ASCII case.
- **`KeyOrder`** models BINARY collation: keys are compared byte by byte.
- **`Mask`** models `mask_value`.
- **`Text`** models the Rust string operations used on the import path:
  - `lines`, `trim`, `trim_matches`;
  - `join("\n")` on the export path.
- **`EnvCodec`** has two halves:
  - the import side: the `.env` line parser and the record count;
  - the export side: the `KEY="VALUE"` formatter with its `"` → `\"`
    escaping, and the `export ` prefix for the shell file.

  It also holds the export/import round trip.
- **`ShellSync`** models the home directory as a map from file names to
  contents, and the profile-append rule of `sync_to_shell`.

Strings are modelled as UTF-8 bytes (`seq<byte>`). Whitespace is the ASCII
whitespace Rust's `trim` removes: tab, LF, VT, FF, CR and space.

### Behaviour worth knowing

- **Adding an existing key.** The code uses `INSERT OR REPLACE`. That deletes
  the old row and inserts a new one with a fresh AUTOINCREMENT id, so a
  re-added key gets a new id. `Table.InsertOrReplaceSpec` states
  that the new row's id is above every earlier one.
- **Empty keys.** `add_secret` validates nothing, so an empty key is stored
  like any other. Only the import skips lines whose key is empty.
- **Return values.** `delete_secret` and `update_secret` return `true`
  whenever the statement runs, including when no row has that id.
- **Listings.** `get_all_secrets` orders by key and returns at most 50 rows. `search_vault` returns at most 20.
- **Export format.** The export format is `KEY="VALUE"`, with every `"`
  written as `\"`. The import does not undo that escaping; see
  `EnvCodec.EscapedQuoteIsNotRestored`.
- **Masking.** A value longer than 8 bytes is masked as its first 4 bytes,
  `...`, and its last 4 bytes. A doc comment in the source says it shows the
  "first 8 chars".

## Model

| member | source | states |
|---|---|---|
| Vault.SecretStore.constructor | vault-core/src/lib.rs:34-52 | a newly created database has no rows and its AUTOINCREMENT counter has issued nothing |
| Vault.SecretStore.AddSecret | vault-core/src/lib.rs:147-159 | always succeeds; the key ends up in exactly one row, the last one, with the new value and a rowid above every earlier rowid; every other key keeps its value; the table invariants are preserved |
| Vault.SecretStore.DeleteSecret | vault-core/src/lib.rs:163-175 | returns true whether or not a row had that id; exactly the rows with other ids remain; no row has that id afterwards; the counter is unchanged |
| Vault.SecretStore.UpdateSecret | vault-core/src/lib.rs:179-191 | returns true whether or not a row had that id; if a row had that id, it now holds the new value, otherwise there is still no such row; keys and ids are unchanged |
| Vault.SecretStore.GetFullSecret | vault-core/src/lib.rs:130-143 | returns nothing exactly when no row has the id, and otherwise the full value of the one row with that id |
| Vault.SecretStore.SearchVault | vault-core/src/lib.rs:65-94 | returns at most 20 items, in strictly ascending key order; each item matches `%query%` ignoring case and is the masked form of a stored row; if the query has no wildcards, each key contains the query ignoring ASCII case |
| Vault.SecretStore.GetAllSecrets | vault-core/src/lib.rs:98-126 | returns min(row count, 50) items, in strictly ascending key order, each the masked form of a stored row |
| Vault.SecretStore.ImportPair | vault-core/src/lib.rs:214-217 | one INSERT OR REPLACE of a parsed pair extends the applied prefix by that pair and uses the next rowid |
| Vault.SecretStore.ImportLine | vault-core/src/lib.rs:204-221 | one turn of the loop: a record line adds its pair and counts it on the wrapping u32; any other line changes nothing |
| Vault.SecretStore.ImportFromEnvString | vault-core/src/lib.rs:195-226 | the table ends as the old table with the pairs of every record line applied in order; the counter advances by the number of pairs; the result is the number of record lines modulo 2^32 |
| Vault.WrapIncrement | vault-core/src/lib.rs:201-220 | a modular-arithmetic step for the import loop, not a vault property: incrementing the wrapped u32 counter gives the wrapped value of the incremented count |
| Vault.SecretStore.ExportToEnvString | vault-core/src/lib.rs:230-253 | returns the `KEY="VALUE"` text of the rows in key order; the text is empty exactly when the table is |
| Vault.SecretStore.SyncToShell | vault-core/src/lib.rs:266-323 | returns true; `~/.envvault` holds the shell text, and the three profiles are visited in order with the append rule applied to each one that exists |
| Table.Filter | vault-core/src/lib.rs:73 | a WHERE clause keeps no more rows than it is given |
| Table.FilterMembers | vault-core/src/lib.rs:73 | a WHERE clause keeps exactly the rows that satisfy the condition |
| Table.FilterOrdered | vault-core/src/lib.rs:73 | filtering preserves unique keys and ascending rowids |
| Table.FilterAppend | vault-core/src/lib.rs:73 | filtering the concatenation of two tables is concatenating their filtered parts |
| Table.FilterIdempotent | vault-core/src/lib.rs:73 | applying the same WHERE clause twice selects the same rows as applying it once |
| Table.FilterKeepsAll | vault-core/src/lib.rs:71-73 | a condition every row satisfies keeps the whole table |
| Table.InsertOrReplaceSpec | vault-core/src/lib.rs:42-43 | INSERT OR REPLACE keeps the invariants; the new row is last, with id lastId+1, above every old id; no other row has the key; the other rows are unchanged |
| Table.InsertOrReplaceConsistent | vault-core/src/lib.rs:153-156 | the invariant part of `Table.InsertOrReplaceSpec`, kept as a separate step for the import proof: INSERT OR REPLACE keeps unique keys, ascending ids and ids no greater than the counter |
| Table.AppendFresh | vault-core/src/lib.rs:42-43 | appending a row with a new key and the next id keeps the invariants |
| Table.WithoutKeyMembers | vault-core/src/lib.rs:43 | the UNIQUE conflict deletes exactly the rows with that key, and the remaining rows keep their invariants |
| Table.WithoutKeyAfterInsert | vault-core/src/lib.rs:153-156 | deleting a key again after its replacement row was added leaves the same other rows |
| Table.InsertOrReplaceUnique | vault-core/src/lib.rs:43 | the unique-key part of `Table.InsertOrReplaceSpec`, needing only unique keys rather than all invariants: INSERT OR REPLACE keeps keys unique |
| Table.ValueOfKeyAfterInsert | vault-core/src/lib.rs:153-156 | after INSERT OR REPLACE, the key reads back the new value and every other key reads back its old value |
| Table.DeleteByIdMembers | vault-core/src/lib.rs:169-174 | the membership part of `Table.DeleteByIdSpec`, without its precondition: DELETE WHERE id removes exactly the rows with that id, keeping unique keys and ascending ids |
| Table.DeleteByIdSpec | vault-core/src/lib.rs:169-174 | DELETE WHERE id keeps the invariants, and afterwards no row has that id |
| Table.UpdateByIdSpec | vault-core/src/lib.rs:185-190 | UPDATE WHERE id keeps the invariants, the number of rows, every id and every key; the other rows are unchanged; a lookup of the id sees the new value if the id was present |
| Table.UpdateLookup | vault-core/src/lib.rs:185-190 | after an UPDATE, a lookup by id returns the new value if the id existed and nothing otherwise |
| Table.UpdateKeepsConsistent | vault-core/src/lib.rs:185-190 | the invariant part of `Table.UpdateByIdSpec`: UPDATE keeps the table invariants |
| Table.LookupId | vault-core/src/lib.rs:136-142 | a lookup returns nothing exactly when no row has the id; otherwise it returns the value of a row with that id |
| Table.LookupIdUnique | vault-core/src/lib.rs:136-142 | with ascending ids, a lookup by a row's id returns that row's value |
| Table.ValueOfKeySpec | vault-core/src/lib.rs:43 | reading a key returns nothing exactly when no row has it; otherwise it returns a value of a row with that key |
| Table.ValueOfKeyUnique | vault-core/src/lib.rs:43 | with unique keys, reading a row's key returns that row's value |
| Table.ValueOfKeyAgree | vault-core/src/lib.rs:43 | two tables with unique keys that hold the same rows for a key read the same value for it |
| Table.ApplyPairsLastWins | vault-core/src/lib.rs:203-223 | after importing pairs, a key holds the value of its last pair, or its old value if no pair names it |
| Table.ApplyPairsUnique | vault-core/src/lib.rs:203-223 | importing pairs keeps keys unique |
| Table.ApplyPairsConsistent | vault-core/src/lib.rs:203-223 | importing n pairs keeps the invariants, and the counter advances by n |
| Table.SortedUnique | vault-core/src/lib.rs:73 | rows in strictly ascending key order have unique keys |
| Table.SortedCons | vault-core/src/lib.rs:105 | putting a row with a smaller key in front keeps the key order |
| Table.InsertByKey | vault-core/src/lib.rs:105 | inserting into a key-ordered list adds exactly that row and keeps the order |
| Table.SortByKey | vault-core/src/lib.rs:105 | ORDER BY key yields a permutation of the rows, in strictly ascending key order |
| Table.OrderedLimitSpec | vault-core/src/lib.rs:105 | ORDER BY key LIMIT n yields min(count, n) sorted rows, all selected; every selected row left out sorts after all n returned |
| Table.TakeOmits | vault-core/src/lib.rs:105 | a sorted row missing from a LIMIT result sorts after every returned row, and the result is full |
| Table.SearchRowsSpec | vault-core/src/lib.rs:71-73 | the search returns at most 20 sorted stored rows whose keys match `%query%`; without wildcards, they contain the query; a matching row is left out only when it sorts after 20 returned rows |
| Table.ListRowsSpec | vault-core/src/lib.rs:105 | the listing returns min(count, 50) sorted stored rows; a row is left out only when it sorts after 50 returned rows |
| Table.EmptySearchIsListPrefix | vault-core/src/lib.rs:71-73 | an empty search returns the first 20 rows of the full listing |
| Table.ProjectSpec | vault-core/src/lib.rs:79-93 | each item carries its row's id and key and the masked value; the items keep the rows' order |
| KeyOrder.LessIrreflexive | vault-core/src/lib.rs:73 | no key sorts before itself |
| KeyOrder.LessTransitive | vault-core/src/lib.rs:73 | key order is transitive |
| KeyOrder.LessTotal | vault-core/src/lib.rs:73 | of two distinct keys, one sorts before the other |
| KeyOrder.LessAsymmetric | vault-core/src/lib.rs:73 | if one key sorts before another, the second does not sort before the first |
| SqlLike.PercentMatchesAll | vault-core/src/lib.rs:71-73 | the pattern `%` matches every key |
| SqlLike.PrefixPattern | vault-core/src/lib.rs:73 | a pattern without wildcards followed by `%` matches exactly the keys that start with it, ignoring ASCII case |
| SqlLike.LeadingPercent | vault-core/src/lib.rs:71-73 | a leading `%` matches exactly when the rest of the pattern matches some suffix |
| SqlLike.SearchPatternIsSubstring | vault-core/src/lib.rs:71-73 | for a query without wildcards, `%query%` matches exactly the keys that contain the query ignoring ASCII case |
| SqlLike.EmptyQueryMatchesAll | vault-core/src/lib.rs:71-73 | an empty query matches every key |
| Mask.MaskValue | vault-core/src/lib.rs:55-61 | a value of at most 8 bytes becomes that many `*`; a longer one becomes its first 4 bytes, `...`, and its last 4 bytes |
| Mask.MaskRevealsOnlyEnds | vault-core/src/lib.rs:55-61 | two long values with the same first 4 and last 4 bytes have the same mask |
| Mask.MaskShortRevealsOnlyLength | vault-core/src/lib.rs:55-61 | two short values of the same length have the same mask |
| ByteStrings.IndexOf | vault-core/src/lib.rs:209 | the first occurrence of a byte, or nothing when the byte does not occur |
| ByteStrings.IndexOfSeparator | vault-core/src/lib.rs:209 | `split_once('=')` splits at the first `=` |
| Text.TrimStartSpec | vault-core/src/lib.rs:204 | trimming the start keeps a suffix that does not begin with a trimmed byte, and drops only trimmed bytes |
| Text.TrimEndSpec | vault-core/src/lib.rs:204 | trimming the end keeps a prefix that does not end with a trimmed byte, and drops only trimmed bytes |
| Text.TrimSetNoOp | vault-core/src/lib.rs:211 | trimming text whose ends are not trimmed bytes changes nothing |
| Text.TrimSetEnds | vault-core/src/lib.rs:211 | the trimmed result neither starts nor ends with a trimmed byte |
| Text.TrimSetSlice | vault-core/src/lib.rs:211 | every byte of the trimmed result comes from the input |
| Text.TrimSetEmpty | vault-core/src/lib.rs:204-205 | trimming gives the empty result exactly when every byte is one that is trimmed |
| Text.TrimSetKeepsFirst | vault-core/src/lib.rs:204-205 | text whose first byte is not trimmed keeps that first byte |
| Text.TrimSetOneLayer | vault-core/src/lib.rs:211 | `trim_matches('"')` removes the surrounding quotes of a value that has no `"` inside |
| Text.JoinEnd | vault-core/src/lib.rs:249-252 | joined lines end with the last line |
| Text.Lines | vault-core/src/lib.rs:203 | no line that `lines()` yields contains a line feed |
| Text.LinesSplit | vault-core/src/lib.rs:203 | `lines()` splits at the first line feed and drops one carriage return before it |
| Text.LinesOfJoin | vault-core/src/lib.rs:203 | `lines()` gives back lines joined with `\n`, when none contains a line feed or ends with a carriage return |
| EnvCodec.ParseLineSpec | vault-core/src/lib.rs:204-213 | a line gives a pair exactly when, once trimmed, it is non-empty, does not start with `#`, and has a non-empty trimmed key before its first `=`; the key is then trimmed, `=`-free, and does not start with `#`; the value does not start or end with `'` |
| EnvCodec.ParseRecordSome | vault-core/src/lib.rs:209-213 | a trimmed line has a record exactly when it contains `=` and does not start with it |
| EnvCodec.ParseRecordKey | vault-core/src/lib.rs:209-210 | the key of a record is non-empty, starts with the line's first byte, contains no `=`, and does not end with whitespace |
| EnvCodec.UnquoteEnds | vault-core/src/lib.rs:211 | an imported value neither starts nor ends with `'` |
| EnvCodec.ParseLinesSnoc | vault-core/src/lib.rs:203-223 | a record line appended to the input adds its pair at the end |
| EnvCodec.ParseLinesPrefix | vault-core/src/lib.rs:203-223 | one more line adds its pair if it is a record, and nothing otherwise |
| EnvCodec.ParseLinesCount | vault-core/src/lib.rs:218-219 | there are as many pairs as record lines |
| EnvCodec.EscapeSpec | vault-core/src/lib.rs:250 | escaping adds only backslashes; it leaves `"`-free values unchanged; every `"` in the output follows a backslash |
| EnvCodec.UnescapeEscape | vault-core/src/lib.rs:250 | escaping is injective: `Unescape`, which the program does not have, recovers every value; the import does not undo the escaping, as `EnvCodec.EscapedQuoteIsNotRestored` shows |
| EnvCodec.EscapeAppend | vault-core/src/lib.rs:250 | escaping works byte by byte |
| EnvCodec.ExportText | vault-core/src/lib.rs:249-252 | the export text is empty exactly when the table is, and otherwise ends with `"` |
| EnvCodec.ParseEnvLine | vault-core/src/lib.rs:211 | a `KEY="VALUE"` line imports as the pair it was written from, for exportable keys and values |
| EnvCodec.ParseKeyValueLine | vault-core/src/lib.rs:209-211 | a line of an exportable key, `=`, and text not ending in whitespace imports as that key and the unquoted text |
| EnvCodec.UnquoteQuoted | vault-core/src/lib.rs:211 | unquoting a double-quoted exportable value gives back the value |
| EnvCodec.ExportLinesArePlain | vault-core/src/lib.rs:249-252 | no export or shell line contains a line feed or ends with a carriage return when keys and values have no line feeds |
| EnvCodec.ParseExportedLines | vault-core/src/lib.rs:249-252 | importing the export lines gives back each row's pair, in order |
| EnvCodec.ExportImportRoundTrip | vault-core/src/lib.rs:230-253 | importing the exported text gives back the table's `(key, value)` pairs in key order, for exportable keys and values |
| EnvCodec.LastValuePairsOf | vault-core/src/lib.rs:203-223 | with unique keys, a key's last exported pair carries the key's stored value |
| EnvCodec.ExportImportRestoresValues | vault-core/src/lib.rs:195-253 | exporting and then importing into an empty table gives every key its original value, or no value if it had none |
| EnvCodec.ShellTextLines | vault-core/src/lib.rs:286-289 | each line of the shell file is `export ` followed by the matching export line |
| EnvCodec.EscapedQuoteIsNotRestored | vault-core/src/lib.rs:211 | importing the export of a value with one inner `"` gives the value with `\"` in its place: escaping is not undone on import |
| EnvCodec.EscapeQuoteBetween | vault-core/src/lib.rs:250 | a single `"` is written as `\"` and nothing else changes |
| ShellSync.AppendSourceLine | vault-core/src/lib.rs:306-315 | the new profile extends the old one and sources the vault; it equals the old one exactly when the old one already sourced the vault |
| ShellSync.AppendSourceLineIdempotent | vault-core/src/lib.rs:306-315 | applying the append rule twice is applying it once |
| ShellSync.AppendToProfilesPrefix | vault-core/src/lib.rs:301-320 | visiting one more profile applies the append rule to it if it exists |
| ShellSync.AppendToProfilesSpec | vault-core/src/lib.rs:301-320 | visiting distinct profiles creates no file, applies the append rule to each named file that exists, and leaves every other file as it was |
| ShellSync.ProfileNamesDistinct | vault-core/src/lib.rs:301 | the three profile names are distinct, and none of them is `.envvault` |
| ShellSync.SyncedFilesSpec | vault-core/src/lib.rs:291-320 | after a sync, `.envvault` holds the content; each existing profile has had the append rule applied and sources the vault; no other file changes or appears |
| ShellSync.SyncIdempotent | vault-core/src/lib.rs:266-323 | syncing twice with the same secrets leaves the same files as syncing once |
| ShellSync.Home.constructor | vault-core/src/lib.rs:302-305 | the home directory holds the given files |
| EnvCodec.Escape | vault-core/src/lib.rs:250 | escaping never shortens a value; what it adds is stated by `EnvCodec.EscapeSpec`, and `EnvCodec.UnescapeEscape` shows nothing is lost |
| Text.TrimStart | vault-core/src/lib.rs:204-211 | trimming the start never lengthens the text; what it keeps and drops is stated by `Text.TrimStartSpec` |
| Text.TrimEnd | vault-core/src/lib.rs:204-211 | trimming the end never lengthens the text; what it keeps and drops is stated by `Text.TrimEndSpec` |
| Text.Join | vault-core/src/lib.rs:252 | definition of `join("\n")`; its properties are stated by `Text.JoinEnd` and `Text.LinesOfJoin` |
| KeyOrder.Less | vault-core/src/lib.rs:105 | definition of BINARY key order; its properties are stated by `KeyOrder.LessIrreflexive`, `KeyOrder.LessTransitive`, `KeyOrder.LessTotal` and `KeyOrder.LessAsymmetric` |
| SqlLike.Like | vault-core/src/lib.rs:73 | definition of `LIKE … COLLATE NOCASE`; its properties are stated by `SqlLike.PercentMatchesAll`, `SqlLike.PrefixPattern`, `SqlLike.LeadingPercent` and `SqlLike.SearchPatternIsSubstring` |
| EnvCodec.Unquote | vault-core/src/lib.rs:211 | definition of the value clean-up `trim().trim_matches('"').trim_matches('\'')`; its properties are stated by `EnvCodec.UnquoteEnds` and `EnvCodec.UnquoteQuoted` |
| EnvCodec.ParseRecord | vault-core/src/lib.rs:209-213 | definition of `split_once('=')` with the key trim and the empty-key check; its properties are stated by `EnvCodec.ParseRecordSome` and `EnvCodec.ParseRecordKey` |
| EnvCodec.ParseLine | vault-core/src/lib.rs:204-213 | definition of one turn of the import parser; its properties are stated by `EnvCodec.ParseLineSpec` and `EnvCodec.ParseKeyValueLine` |
| EnvCodec.EnvLine | vault-core/src/lib.rs:250 | definition of one `KEY="VALUE"` line; its properties are stated by `EnvCodec.ParseEnvLine` and `EnvCodec.EscapedQuoteIsNotRestored` |
| EnvCodec.ShellText | vault-core/src/lib.rs:286-289 | definition of the `~/.envvault` content; its properties are stated by `EnvCodec.ShellTextLines` |
| Table.InsertOrReplace | vault-core/src/lib.rs:153-156 | definition of INSERT OR REPLACE under AUTOINCREMENT; its properties are stated by `Table.InsertOrReplaceSpec` and `Table.ValueOfKeyAfterInsert` |
| Table.DeleteById | vault-core/src/lib.rs:169-172 | definition of DELETE WHERE id; its properties are stated by `Table.DeleteByIdSpec` |
| Table.UpdateById | vault-core/src/lib.rs:185-188 | definition of UPDATE WHERE id; its properties are stated by `Table.UpdateByIdSpec` |
| Table.SearchRows | vault-core/src/lib.rs:71-73 | definition of the search query; its properties are stated by `Table.SearchRowsSpec` |
| Table.ListRows | vault-core/src/lib.rs:105 | definition of the listing query; its properties are stated by `Table.ListRowsSpec` |
| Table.Project | vault-core/src/lib.rs:79-87 | definition of the row-to-item mapping; its properties are stated by `Table.ProjectSpec` |
| ShellSync.AppendToProfiles | vault-core/src/lib.rs:301-320 | definition of the profile loop; its properties are stated by `ShellSync.AppendToProfilesSpec` |
| ShellSync.SyncedFiles | vault-core/src/lib.rs:291-320 | definition of the home directory after a sync; its properties are stated by `ShellSync.SyncedFilesSpec` and `ShellSync.SyncIdempotent` |
| EnvCodec.ParseLines | vault-core/src/lib.rs:203-223 | definition of the pairs the import loop adds, in line order; its properties are stated by `EnvCodec.ParseLinesSnoc`, `EnvCodec.ParseLinesPrefix`, `EnvCodec.ParseLinesCount` and `EnvCodec.ParseExportedLines` |
| EnvCodec.Parse | vault-core/src/lib.rs:203-223 | definition of `content.lines()` followed by the per-line parse; its properties are stated by `EnvCodec.ExportImportRoundTrip` and `Vault.SecretStore.ImportFromEnvString` |
| Table.ApplyPairs | vault-core/src/lib.rs:214-217 | definition of the import's chain of INSERT OR REPLACE statements; its properties are stated by `Table.ApplyPairsLastWins`, `Table.ApplyPairsUnique` and `Table.ApplyPairsConsistent` |
| Table.WithoutKey | vault-core/src/lib.rs:154 | definition of REPLACE deleting the row whose key conflicts; its properties are stated by `Table.WithoutKeyMembers` and `Table.WithoutKeyAfterInsert` |
| Table.Take | vault-core/src/lib.rs:105 | definition of `LIMIT n` (20 at line 73, 50 at line 105); its properties are stated by `Table.TakePrefix`, `Table.TakeOmits` and `Table.OrderedLimitSpec` |
| Table.UniqueKeys | vault-core/src/lib.rs:43 | definition of the `UNIQUE` constraint on `key`; it is kept by `Table.InsertOrReplaceUnique`, `Table.ApplyPairsUnique` and `Table.FilterOrdered` |
| Text.Trim | vault-core/src/lib.rs:204-211 | definition of `trim()` on ASCII whitespace; its properties are stated by `Text.TrimSetEnds`, `Text.TrimSetEmpty` and `Text.TrimSetKeepsFirst` |
| Text.TrimSet | vault-core/src/lib.rs:211 | definition of `trim_matches`; its properties are stated by `Text.TrimSetNoOp`, `Text.TrimSetEnds`, `Text.TrimSetSlice`, `Text.TrimSetEmpty`, `Text.TrimSetKeepsFirst` and `Text.TrimSetOneLayer` |
| Text.StripCR | vault-core/src/lib.rs:203 | definition of the rule by which `lines()` drops one carriage return before a line feed; its property is stated by `Text.LinesSplit` |
| SqlLike.SearchPattern | vault-core/src/lib.rs:71 | definition of `format!("%{}%", query)`; its properties are stated by `SqlLike.SearchPatternIsSubstring` and `SqlLike.EmptyQueryMatchesAll` |
| SqlLike.Lower | vault-core/src/lib.rs:73 | definition of the folding of ASCII letters under `COLLATE NOCASE`; its properties are stated by `SqlLike.PrefixPattern` and `SqlLike.SearchPatternIsSubstring` |
| ShellSync.SourcesVault | vault-core/src/lib.rs:306 | definition of the two `contains` tests; its properties are stated by `ShellSync.AppendSourceLine` and `ShellSync.SyncedFilesSpec` |
| ByteStrings.Contains | vault-core/src/lib.rs:306 | definition of `str::contains`; its properties are stated by `ShellSync.AppendSourceLine` |
| Mask.IsCharBoundary | vault-core/src/lib.rs:59 | definition of a UTF-8 character boundary, where a slice may cut; it is used by `Mask.Maskable` |
| Mask.Maskable | vault-core/src/lib.rs:59 | definition of the condition under which the two slices do not panic; it is required by `Mask.MaskValue` |
| EnvCodec.EnvLines | vault-core/src/lib.rs:249-250 | definition of the `.map(...)` that turns each row into a `KEY="VALUE"` line; its properties are stated by `EnvCodec.ExportLinesArePlain` and `EnvCodec.ParseExportedLines` |
| EnvCodec.ShellLines | vault-core/src/lib.rs:286-287 | definition of the `.map(...)` that turns each row into an `export KEY="VALUE"` line; its properties are stated by `EnvCodec.ExportLinesArePlain` and `EnvCodec.ShellTextLines` |

## Left out

- Errors from SQLite and the file system are left out:
  - a failed `Connection::open`, `prepare`, `query_map` or `execute`;
  - dropped rows from `filter_map(|r| r.ok())`;
  - a failed `std::fs::write`, `read_to_string`, `open` or `write_all`.

  The model takes every statement and file operation to succeed. So the
  record-changing methods and `SyncToShell` always return true, and
  `ImportFromEnvString` counts every record line.
- The location of the database (`get_db_path`, `ProjectDirs`) and of
  `~/.envvault` (`get_envvault_path`, `get_envvault_file_path`) is left out.
  These are file system locations. A missing home directory is left out too:
  the model treats the home directory as always present.
- `init_database` on an existing database is left out. `CREATE TABLE IF NOT
  EXISTS` then leaves the stored table as it is, and the model starts from an
  empty table.
- The `created_at` and `updated_at` timestamps use the clock and are not part
  of any result, so they are left out.
- The Node.js binding (`#[napi]`) and the commented-out AES encryption are
  not part of this model.
- Concurrent access from several processes to the same database is left out.
- The `id` column is read as `u32`. The model keeps ids as unbounded naturals,
  so the failure of a row whose id exceeds `u32::MAX` is left out.
- The import counter `imported += 1` overflows. The model gives it the
  wrapping behaviour of a release build; a debug build would panic instead,
  and that panic is left out.
- Only ASCII whitespace is trimmed and only ASCII letters fold case.
  Multi-byte Unicode whitespace and SQLite's handling of non-ASCII text are
  not modelled.
- The model treats `_` in a search query as a wildcard matching one byte.
  SQLite's `_` matches one character, so the two differ only for multi-byte
  characters.
- Mask.MaskValue: requires that bytes 4 and len−4 fall on character
  boundaries. On any other value, Rust's slicing panics, and that panic is not
  modelled. `SearchVault` and `GetAllSecrets` require this of the rows they
  mask.
- EnvCodec.ExportImportRoundTrip: is stated only for exportable keys and
  values:
  - keys must be non-empty and trimmed, free of `=` and line feeds, and not
    start with `#`;
  - values must be free of `"` and line feeds, with no `'` at either end.

  For other inputs the round trip does not hold, as
  `EnvCodec.EscapedQuoteIsNotRestored` shows for `"`.
- Table.Filter: its own contract bounds only the length. Membership and
  ordering are stated by `Table.FilterMembers` and `Table.FilterOrdered`.
- EnvCodec.ExportText: its own contract states only emptiness and the last
  byte. The line-by-line content is stated by `Text.LinesOfJoin`,
  `EnvCodec.ParseExportedLines` and `EnvCodec.ExportImportRoundTrip`.
