# FreeShadowsocks2 scraper core, modelled in Dafny

The program fetches a web page that lists free shadowsocks servers. It pulls server records out
of the HTML with a regular expression, then merges them into the `configs` array of the local
`gui-config.json`. This project models the two routines that hold the logic, both in
`src/main.cpp`:

- `parse` (module `Parser`, `parser.dfy`). It walks the regex matches in scan order. For each
  match it builds an object `{server, server_port, password, method, auth: false}` from capture
  groups 1 to 4, and it skips the match when the password group is empty. The regex engine is
  abstracted as its output, a `MatchRun`: the matches it delivered, each a sequence of captured
  strings, and whether it then threw `std::regex_error`. `std::stoi` is modelled on 32-bit
  `int`. A port above INT_MAX makes it throw `std::out_of_range`. Nothing catches that
  exception, so the model gives the outcome `PortOutOfRange`.
- `merge` (module `Merger`, `merger.dfy`). It folds a batch of records into the local value,
  keyed by the `server` member. If the local value is not an array or is empty, the batch
  replaces it. Otherwise a key-to-position index is built once from the local entries. Then
  each batch record with an indexed key replaces the entry at that position. Each record with
  a new key is appended, and each record without `server` is dropped. `ValueRef` stands for
  the `rapidjson::Value&` that `merge` rewrites in place. The method `Merge` runs the same two
  loops as the source, and its postcondition ties the new value to the function `Merged`.
- JSON values (module `Values`, `values.dfy`). Objects keep their members in insertion order.
  `Lookup` takes the first member with a given name, which is how rapidjson's `operator[]`
  resolves a name.

Behaviour of the code worth noting:

- `method` is stored as captured. It is not lowercased and not checked for emptiness.
- Only the password group is checked for emptiness.
- The `auth: false` member is always emitted.
- `std::regex_error` is caught after the loop. The records pushed before the error, possibly
  none, are therefore returned (`RegexErrorIgnored`).
- `std::stoi` runs before the password check. An oversized port therefore aborts even on a
  match that would have been skipped.
- Keys are compared as `std::string`s built from `GetString()`, which stop at the first NUL.
  Two `server` strings that agree up to an embedded NUL are the same key (`MergeNulKeys`).
- The index keeps, for each key, the LAST local entry that holds it, because `servers[key] = &v`
  overwrites any earlier entry for that key.
- The index is never updated during the second loop. Two batch records with the same key that is
  new to the collection are both appended (`MergeDuplicatesNewKey`). For a key that is already
  indexed, the last batch record wins (`MergeInPlace`).

## Model

| member | source | states |
|---|---|---|
| `Values.Lookup` | src/main.cpp:55 | the definition of `object[name]`: scan the members in order and take the first one with the name; `LookupFirst` states its contract |
| `Values.HasMember` | src/main.cpp:54 | the definition of `HasMember`: `object[name]` finds a member |
| `Values.LookupFirst` | src/main.cpp:55 | `object[name]` finds nothing exactly when no member has the name; otherwise it yields the value of the first member with that name |
| `Values.CString` | src/main.cpp:55 | the `std::string` built from `GetString()` is the longest NUL-free prefix of the string: a prefix, without NUL, and followed by a NUL when shorter |
| `Values.CStringWithoutNul` | src/main.cpp:55 | a string without NUL converts to itself |
| `Values.Server` | src/main.cpp:54-55 | the definition of the key: the first `server` member's string, cut at its first NUL; `ServerKey`, `LookupFirst` and `CString` state its properties |
| `Values.ServerKey` | src/main.cpp:54-55 | a record is keyed k exactly when its first member named `server` holds a string that, cut at its first NUL, is k |
| `Parser.DecimalAppend` | src/main.cpp:29 | `std::stoi` reads positionally in base 10: one more digit multiplies the value so far by ten and adds the digit |
| `Parser.DecimalBound` | src/main.cpp:29 | n more digits read onto a value v give less than (v + 1) * 10^n, so a port of n digits is below 10^n |
| `Parser.LeadingZeroIgnored` | src/main.cpp:29 | `std::stoi` reads base 10: a leading zero does not change the port value |
| `Parser.ShortPortFits` | src/main.cpp:29 | a port of at most nine digits never makes `std::stoi` throw; the port is its decimal value |
| `Parser.ParseShortPorts` | src/main.cpp:16-45 | a page whose ports all have at most nine digits parses to an array, namely the kept records |
| `Parser.DecimalFrom` | src/main.cpp:29 | the definition of the digit reading of `std::stoi`: digits left to right onto an accumulated value; `DecimalAppend` and `DecimalBound` state its properties |
| `Parser.DecimalValue` | src/main.cpp:29 | the definition of a digit string's base-10 value, read from zero; `LeadingZeroIgnored` and `ShortPortFits` state its properties |
| `Parser.Stoi` | src/main.cpp:29 | the definition of `std::stoi` on a digit string: its decimal value, or no value above INT_MAX where it throws `std::out_of_range`; `ShortPortFits` and `DecimalBound` state its properties |
| `Parser.RecordOf` | src/main.cpp:24-35 | the definition of the object built from one match; `RecordFields` states its members |
| `Parser.RecordFields` | src/main.cpp:26-35 | a record maps group 1 whole to `server` (its key is group 1 cut at its first NUL), the decimal value of group 2 to `server_port`, group 3 to `password`, group 4 unchanged to `method`, and `auth` to false |
| `Parser.RecordsOf` | src/main.cpp:30-37 | the definition of what one match contributes: nothing for an empty password (the `continue`), else its record (the `PushBack`); `KeptAt` places it |
| `Parser.Kept` | src/main.cpp:23-37 | the definition of the records kept from a run: per match, none for an empty password, else its record, in match order; `KeptAt`, `KeptAppend` and `KeptFromValidMatches` state its properties |
| `Parser.ParseSpec` | src/main.cpp:16-45 | the definition of the outcome of `parse`: `PortOutOfRange` when some port overflows, else the kept records |
| `Parser.RegexErrorIgnored` | src/main.cpp:40-44 | a `regex_error` after the delivered matches does not change the outcome |
| `Parser.KeptAtMostOnePerMatch` | src/main.cpp:23-37 | a run of matches never yields more records than it has matches |
| `Parser.Parse` | src/main.cpp:16-45 | the loop returns the kept records, or `PortOutOfRange` exactly when some match's port exceeds INT_MAX; zero matches, including a `regex_error` before the first match, give an empty array |
| `Parser.KeptStep` | src/main.cpp:23-37 | one pass of the loop: the records of the first i + 1 matches are those of the first i, then those of match i |
| `Parser.KeptAppend` | src/main.cpp:23-37 | records come out in match order: the records of a concatenation of runs are the concatenation of their records |
| `Parser.KeptAt` | src/main.cpp:30-37 | a match with an empty password yields no record; any other match yields exactly its own record, after the records of earlier matches and before those of later ones |
| `Parser.KeptFromValidMatches` | src/main.cpp:30-37 | every emitted record is the record of some match whose password is not empty |
| `Parser.KeptAllPresent` | src/main.cpp:23-37 | when no password is empty, record j is the record of match j, for every j |
| `Merger.IndexOf` | src/main.cpp:52-56 | every position in the index is a position of the local entries |
| `Merger.IndexOfKey` | src/main.cpp:52-56 | a key is indexed exactly when some local entry holds it, and then the index gives the last entry that holds it |
| `Merger.Step` | src/main.cpp:59-67 | the definition of one pass of the second loop: no `server` leaves the entries, an indexed key overwrites its position, a new key appends |
| `Merger.Upsert` | src/main.cpp:58-68 | the second loop never shortens the collection and leaves only readable records in it |
| `Merger.Appended` | src/main.cpp:59-66 | every appended record has a `server` key, and that key is not in the index |
| `Merger.LastWithKey` | src/main.cpp:61-63 | the record that wins for key k is a batch record keyed k, and there is none exactly when no batch record has key k |
| `Merger.LastWithKeyAt` | src/main.cpp:61-63 | the record that wins for key k is the batch record at the last position keyed k |
| `Merger.Replacement` | src/main.cpp:61-63 | the definition of the last batch record the index sends to a position, repeated `Swap`s leaving the last one; `ReplacementOfKey` and `ReplacementUnindexed` state its properties |
| `Merger.UpsertShape` | src/main.cpp:58-68 | with a fixed index, every existing position ends up holding the last batch record the index sends there, or else its old entry; records with new keys follow in batch order; the length grows by their number |
| `Merger.ReplacementOfKey` | src/main.cpp:61-63 | since no two keys share an index position, the records sent to key k's position are exactly the records keyed k |
| `Merger.ReplacementUnindexed` | src/main.cpp:61-63 | a position that no index key points at is never overwritten |
| `Merger.AppendedNone` | src/main.cpp:65-66 | a batch whose every key is already indexed appends nothing |
| `Merger.AppendedContains` | src/main.cpp:65-66 | every batch record with a new key is appended |
| `Merger.AppendedExtends` | src/main.cpp:65-66 | the records appended for a batch start with those appended for the batch without its last record |
| `Merger.AppendedInOrder` | src/main.cpp:58-68 | two batch records whose keys are absent from the index are both appended, in batch order, whatever their keys |
| `Merger.Merged` | src/main.cpp:47-68 | the definition of the value `merge` leaves: the batch for an empty or non-array local value, else the second loop run over the batch with the index of the local entries |
| `Merger.Merge` | src/main.cpp:47-69 | the value left in `local` is `Merged(old value, remote)`; when the old value is not an array or is empty, it is the batch verbatim |
| `Merger.MergeInPlace` | src/main.cpp:58-68 | in a non-empty array, an entry keyed k that the index points at is replaced wholesale by the last batch record keyed k and keeps its position, or keeps its content when no batch record has key k; every other entry keeps its content and position |
| `Merger.MergeAppends` | src/main.cpp:59-66 | the result is the existing positions followed by the batch records whose key the local entries lack, in batch order; records without `server` are dropped; the final length is the original length plus their number |
| `Merger.MergeKeepsKeys` | src/main.cpp:53-68 | existing entries are never removed or reordered: every old position still exists and holds the same key |
| `Merger.MergeUniqueKeys` | src/main.cpp:52-68 | if the local keys are unique, the merged keys are unique exactly when the appended records have distinct keys |
| `Merger.MergeDuplicatesNewKey` | src/main.cpp:52-68 | because the index is not updated, two batch records sharing a key new to the collection leave that key twice in the result |
| `Merger.MergeNulKeys` | src/main.cpp:55-63 | a local entry keyed `"a\0x"` and a batch record keyed `"a\0y"` share the key `"a"`: the batch record replaces the entry and nothing is appended |
| `Merger.MergeSelf` | src/main.cpp:47-68 | merging a collection's own content back into it changes nothing |

## Left out

- Fetching the page with `cpr::Get` and the status check in `main` (src/main.cpp:109-111) are network I/O. The page text appears only through the matches it produces.
- The `std::regex` engine (src/main.cpp:19-22) is a foreign library. Its output is an input of `Parse`, and the model assumes it delivers five groups per match with group 2 made of digits, as the pattern guarantees.
- Logging the `regex_error` message to `std::cerr` (src/main.cpp:41) is output only. The flag `MatchRun.regexError` therefore does not change the result.
- `openf`, `load` and `save` (src/main.cpp:71-105) are file I/O plus JSON parsing and printing by rapidjson. The model only uses `load`'s guarantee that a `configs` member exists (src/main.cpp:91-93), through `Merge` receiving a value to rewrite.
- `addMember` (src/main.cpp:11-14) is never called in this revision.
- rapidjson allocators, move semantics and `Swap`: the model works on values. The content a `Swap` leaves in the batch is not kept, because the batch is discarded.
- Reallocation: the source indexes positions by `rapidjson::Value*` addresses into the array, and `PushBack` may reallocate the array before a later `Swap` through such an address. The model indexes by position, the behaviour the code intends.
- rapidjson's assertions (`HasMember` on a non-object, `GetString` on a non-string, `GetArray` on a non-array) are preconditions (`MergeReady`), not modelled failures.
