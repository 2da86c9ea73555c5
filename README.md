# web3_address_helper_rs, modelled in Dafny

The helper is a background utility. When the user holds Meta (left or right Command) and presses J, it does four things:

1. It captures the selected text.
2. It normalises the text into an address key.
3. It looks the key up in a table built from a list of `MemoAddress` records (`address`, `label`, `chain`, `description`).
4. It shows a notification. The title is the text, shortened when long. The body is `"<label> in <chain>\n<description>"`, or `"Address Not Found"` on a miss.

A watcher thread rebuilds the whole table whenever the address file changes.

This project models the core of `src/main.rs`:

- `normalize.dfy` (module `Normalization`): the key normalisation `replace("0x", "")`, `trim`, `to_lowercase`, `replace(' ', "")`, in exactly that order, one function per step. Each step has lemmas that characterise its result. The lemmas about the whole chain cover:
  - the shape of a key;
  - exactly when normalising again changes a key;
  - the inputs that show the chain is not idempotent.
- `address_book.dfy` (module `AddressBook`): the table build (`init_address_dict`), which is
  - specified by the left fold `Dict`;
  - implemented by the loop method `Build`.

  The module also has `get_address_label` and `get_msg_from_memo`. Its lemmas cover the table's keys and size, last-write-wins on collisions, and lookups against a built table.
- `notification.dfy` (module `Notification`): the title truncation at the 17/18 boundary and the notification a fired hotkey produces. That covers a failed capture, a hit and a miss.
- `hotkey.dfy` (module `Hotkey`): the modifier-set transitions of the `listen` callback.
  - Left and right Meta collapse into `MetaLeft`.
  - J fires only while `MetaLeft` is held.

  A lemma ties the held state after any run of events to the history of Meta presses and releases.
- `helper.dfy` (module `Helper`): the running state as a class `AddressHelper` with the fields `table` and `modifiers`.
  - The constructor does the initial build.
  - `Reload` replaces the whole table.
  - `HandleEvent` is the callback for one event.
- `scenarios.dfy` (module `Scenarios`): worked inputs, including the one-record "Treasury" run and `"0X 0x Ab C"`.
- `wrappers.dfy` (module `Wrappers`): `Option` and `Result`.

Strings are ASCII `seq<char>`. Whitespace is the ASCII part of Rust's `char::is_whitespace` (tab, line feed, vertical tab, form feed, carriage return, space). Lowercasing maps `A`–`Z` only.

Two behaviours of the code are worth knowing:

- Normalisation is not idempotent. `"0x"` is stripped before lowercasing, so an uppercase `"0X"` survives as `"0x"`. The key of `"0X 0x Ab C"` is `"0xabc"` (`Scenarios.MixedPrefixesKeepUppercaseOne`). `"00xx"` normalises to `"0x"` and then to `""` (`Normalization.OverlapSurvivesOnce`).
- A failed reload panics through `expect` (lines 183-184), and so does a failed notification through `unwrap` (lines 101 and 107). See "Left out".

## Model

| member | source | states |
|---|---|---|
| `Normalization.Strip0xSpec` | src/main.rs:159 | `replace("0x", "")` only deletes characters. It returns text without a lowercase `"0x"` unchanged and always shortens text that has one. Which characters go is fixed together with `Strip0xSplit`. |
| `Normalization.Strip0x` | src/main.rs:159 | Removing `"0x"` never lengthens the text. What it removes is stated by `Strip0xSpec` and `Strip0xSplit`. |
| `Normalization.Strip0xSplit` | src/main.rs:159 | `replace("0x", "")` splits at an occurrence: stripping `a + "0x" + b` gives the strip of `a` followed by the strip of `b`. With `Strip0xSpec` (text without `"0x"` is unchanged) this fixes exactly which characters are deleted and keeps the rest in order. |
| `Normalization.TrimStartSpec` | src/main.rs:160 | The leading-trim drops a prefix made only of whitespace and stops at the first other character. |
| `Normalization.TrimEndSpec` | src/main.rs:160 | The trailing-trim drops a suffix made only of whitespace and stops at the last other character. |
| `Normalization.TrimSpec` | src/main.rs:160 | `trim` returns a slice of its input with only whitespace before and after it. The slice neither starts nor ends with whitespace. |
| `Normalization.TrimStart` | src/main.rs:160 | The leading-trim never lengthens the text. Its full meaning is `TrimStartSpec`. |
| `Normalization.TrimEnd` | src/main.rs:160 | The trailing-trim never lengthens the text. Its full meaning is `TrimEndSpec`. |
| `Normalization.Trim` | src/main.rs:160 | `trim` never lengthens the text. Its full meaning is `TrimSpec`. |
| `Normalization.LowerSpec` | src/main.rs:161 | `to_lowercase` lowers every character in place and keeps the length. |
| `Normalization.Lower` | src/main.rs:161 | `to_lowercase` keeps the length. Its full meaning is `LowerSpec`. |
| `Normalization.RemoveSpacesSpec` | src/main.rs:162 | `replace(' ', "")` leaves no space and keeps every other character, each as many times. Text without spaces comes back unchanged. The deletion works piecewise, `RemoveSpaces(s + t) == RemoveSpaces(s) + RemoveSpaces(t)`, so the kept characters stay in their order. |
| `Normalization.RemoveSpaces` | src/main.rs:162 | Deleting spaces never lengthens the text. Its full meaning is `RemoveSpacesSpec`. |
| `Normalization.Normalize` | src/main.rs:158-162 | A key is never longer than the address it comes from. Its shape is `NormalizeWellFormed`. |
| `Normalization.NormalizeWellFormed` | src/main.rs:158-162 | A key has no space and no uppercase letter, and neither starts nor ends with whitespace. |
| `Normalization.NormalizeFixpoint` | src/main.rs:189-194 | Normalising a key again changes it if and only if the key still contains a lowercase `"0x"`. |
| `Normalization.OverlapSurvivesOnce` | src/main.rs:158-162 | `"00xx"` normalises to `"0x"`, which then normalises to `""`, so the chain is not idempotent. |
| `Normalization.UppercasePrefixSurvivesOnce` | src/main.rs:158-162 | `"0X1"` normalises to `"0x1"`, which then normalises to `"1"`, because `"0x"` is removed before lowercasing. |
| `AddressBook.LastIndexOf` | src/main.rs:188-196 | Gives the position of the last record whose key is `k`, with no later record under `k`, or -1 when no record has that key. |
| `AddressBook.Dict` | src/main.rs:187-198 | Every entry of the built table is a record of the list, stored under that record's own key. |
| `AddressBook.Build` | src/main.rs:187-198 | The insert loop builds exactly the fold `Dict(records)`. Its keys are the records' normalised addresses, and it has no more entries than records. |
| `AddressBook.DictKeys` | src/main.rs:188-195 | The built table's key set equals the set of normalised addresses of the list. |
| `AddressBook.DictSize` | src/main.rs:187-198 | The built table has at most as many entries as the list has records. |
| `AddressBook.DictHoldsLastWrite` | src/main.rs:188-196 | A key is in the table if and only if some record has it. The table then holds the last such record. |
| `AddressBook.LastWins` | src/main.rs:195 | When records i < j share a key, the table holds at that key a record from position j onwards. |
| `AddressBook.Message` | src/main.rs:201-203 | The message is the label, then `" in "`, then the chain, then a line break, then the description. Its length is their lengths plus 5. |
| `AddressBook.GetAddressLabel` | src/main.rs:154-170 | The lookup succeeds exactly when the query's key is in the table. A hit returns the stored record's message, and a miss returns `Err("Not Found")`. |
| `AddressBook.LookupInBuiltTable` | src/main.rs:154-170 | A lookup in a built table returns the message of the last record whose key equals the query's key. It returns `Err("Not Found")` when no record has that key. |
| `AddressBook.LookupOwnAddress` | src/main.rs:158-165 | Build and query share one normalisation. Looking a record up by its own address returns its own message, unless a later record has the same key. |
| `AddressBook.LookupMiss` | src/main.rs:163-169 | A query whose key no record has returns `Err("Not Found")`. |
| `Notification.ShowText` | src/main.rs:81-94 | Text of 18 characters or more becomes its first 10 characters, `"..."` and its last 8 characters (21 in all). Shorter text is returned unchanged. |
| `Notification.TitleBoundary` | src/main.rs:81 | A 17-character text is shown whole. An 18-character text is shortened. |
| `Notification.MessageIsNotNotFound` | src/main.rs:96-107 | A hit's message always contains a line break, so it never equals the `"Address Not Found"` body. |
| `Notification.Body` | src/main.rs:96-107 | A hit's body is the lookup's message. A miss's body is `"Address Not Found"`. |
| `Notification.Present` | src/main.rs:79-113 | A failed capture shows nothing. Otherwise the title is the shortened text. The body is `"Address Not Found"` exactly when the key is missing, and the record's message on a hit. |
| `Hotkey.Step` | src/main.rs:72-125 | After one event, `MetaLeft` is held exactly when the event is a Meta press, or when it was held and the event is not a Meta release. No other key is ever inserted or removed. |
| `Hotkey.Fires` | src/main.rs:77-78 | Only a J press can fire, and it fires exactly when `MetaLeft` is held. Firing leaves the modifier set as it was. |
| `Hotkey.AfterMatchesHistory` | src/main.rs:73-76 | Meta is held after a run of events exactly when some Meta press in the run has no later Meta release, or when it was held before and the run has no Meta release. |
| `Hotkey.AfterTracked` | src/main.rs:74-76 | Starting from a set that holds at most `MetaLeft`, every reachable modifier set holds at most `MetaLeft`. |
| `Hotkey.MixedMetaDoesNotFire` | src/main.rs:118-121 | Press MetaLeft, press MetaRight, release MetaRight, press J: no fire. |
| `Hotkey.ChordExamples` | src/main.rs:77-79 | Meta then J fires once. J alone does not fire, and neither does J after Meta was released. A second J fires again. |
| `Helper.AddressHelper.constructor` | src/main.rs:55-57 | The start-up state is the table built from the records, with no modifier held. |
| `Helper.AddressHelper.Reload` | src/main.rs:140-145 | After a reload, the table is exactly the build of the new records, so nothing of the old table survives unless rebuilt. The modifiers are untouched. |
| `Helper.AddressHelper.HandleEvent` | src/main.rs:69-126 | The modifiers take one `Step` and the table is unchanged. A notification is produced only when J fires, and it is then `Present(capture, table)`. |
| `Scenarios.EndToEnd` | src/main.rs:154-170 | With the record `{"0xAbC123", "Treasury", "ETH", "Main fund"}`, capturing `"  0xabc123 "` shows `"Treasury in ETH\nMain fund"`. Capturing `"0xDEF999"` shows `"Address Not Found"`. |
| `Scenarios.MixedPrefixesKeepUppercaseOne` | src/main.rs:189-194 | The key of `"0X 0x Ab C"` is `"0xabc"`, not `"abc"`. |

## Left out

- Text capture (`src/appl_script.rs`, the AppleScript Cmd-C and clipboard save/restore) is not part of this model. Its outcome is the `capture` parameter of `HandleEvent` and `Present`, a `Result<string>`.
- Notification display (`notify_rust`, `mac_notification_sys`, lines 50-53 and 97-107): the model returns the `Note` that would be shown. The `unwrap` on `show()` panics on a notifier failure, and that panic is not modelled.
- The `rdev::listen` hook, the `hotwatch` watcher and the 5-second sleep loop (lines 128-152) are external event sources. Events arrive one at a time as calls of `HandleEvent` and `Reload`.
- Threads, `Arc<Mutex<..>>` locking and lock poisoning (lines 57-71, 142) are concurrency. The table is one field of a single-threaded object.
- File reading, serde JSON parsing and clap arguments (lines 18-27, 172-184) are I/O. `Reload` and the constructor receive the parsed records.
- `Helper.AddressHelper.Reload` models only a successful rebuild. In the source, a read or parse failure panics through `expect` (lines 183-184) while the lock is held. The model makes no claim that the old table survives a bad reload.
- `ARGS` and `ADDRESS_DICT` (lines 39-48): forcing `ADDRESS_DICT` at start-up (line 47) runs an extra `init_address_dict` whose table is discarded, though it panics on a bad file like the main build. `ARGS` supplies the watched path (line 62), which equals `get_config_path()`, so one path is modelled.
- The `println!` logging and the `read_f` test (lines 205-213) have no effect on the modelled state.
- `Notification.ShowText` counts characters. The source compares the UTF-8 byte length (line 81) and then takes characters (lines 82-90). The two agree only on ASCII text, which is the only text modelled.
- Normalization.Strip0x: its own contract gives only the length bound. What it deletes is stated by `Strip0xSpec` and `Strip0xSplit`, kept out of the function so that unfolding a key stays cheap.
- Normalization.TrimStart: its own contract gives only the length bound. Its meaning is `TrimStartSpec`, for the same reason.
- Normalization.TrimEnd: its own contract gives only the length bound. Its meaning is `TrimEndSpec`, for the same reason.
- Normalization.Trim: its own contract gives only the length bound. Its meaning is `TrimSpec`, for the same reason.
- Normalization.Lower: its own contract gives only the length. Its meaning is `LowerSpec`, for the same reason.
- Normalization.RemoveSpaces: its own contract gives only the length bound. Its meaning is `RemoveSpacesSpec`, for the same reason.
- Normalization.Normalize: its own contract gives only the length bound. The shape of a key is `NormalizeWellFormed`, for the same reason. Normalize uses ASCII whitespace and ASCII lowercasing. Rust's `trim` and `to_lowercase` are Unicode-aware.
