# dnf5 transaction replay codec and package colouriser, in Dafny

This project models two small parts of dnf5 (libdnf5), the RPM package manager.

**The transaction replay codec** (`libdnf5/transaction/transaction_sr.cpp`).
- `json_serialize` writes a resolved transaction as a JSON document. The document has an `rpms`, a `groups` and an `environments` array, each present only when non-empty, and a `"version": "1.0"` member.
- `parse_transaction_replay` reads such a document back. Before anything else it rejects:
  - empty input;
  - text that is not JSON;
  - a `version` whose major part (the text before the first `.`) is not `1`.
- For every array element it then reads the known keys into working strings. It converts the action and reason strings with the vocabulary conversions, which fail on unknown words, and appends the item.

The working strings are declared once per array, not once per element. A key an element omits therefore keeps the value an earlier element gave it. This includes the required keys: a missing `nevra`, `id` or `action` is taken from the working string, which is "" for the first element. The model reproduces this exactly. A decoder that reset its working strings per element would not carry values over; this one does.

Every string crosses a C string on both sides. The encoder hands `c_str()` to `json_object_new_string`, and the decoder assigns the `const char *` of `json_object_get_string` to a `std::string`. So a string with a NUL character is cut at its first NUL (`Json.CString`). The presence test for `package_path` and `group_id` is made on the whole string, before that cut. The same holds for the input text: it is tested for emptiness as a whole, and the tokenizer is handed its C string. The action and reason words of the vocabulary are taken to be NUL-free (`ReplayModel.Inverse`).

The property that matters is proved about this model:
- serialising and then parsing returns the original transaction exactly when no string in it holds a NUL and no package with an empty `package_path` or `group_id` follows one where that field is non-empty (`ReplayRoundTrip.RoundTrip`);
- a two-package example shows a repository package picking up a local package's path (`ReplayRoundTrip.CarryOverExample`);
- a nevra `foo` NUL `bar` is read back as `foo` (`ReplayRoundTrip.NulInNevra`).

**The package colouriser** (`include/libdnf5-cli/output/pkg_colorizer.hpp`, `libdnf5-cli/output/pkg_colorizer.cpp`).
- The constructor turns four colour settings into ANSI escape sequences with `to_escape`. It then indexes a base package set by name.arch; the first package of each name.arch wins, because `emplace` does not overwrite.
- `get_pkg_color` classifies a package as not found, lower, equal or greater than its base package, and returns the matching colour.
- `to_escape` works as follows:
  - it leaves `""` unchanged;
  - it also leaves unchanged any colour that starts with a non-letter, taking it to be an escape sequence already;
  - otherwise it splits the colour on `,` and concatenates the table escapes of the parts it knows.

Layout, one module per file:

| file | module | contents |
|---|---|---|
| `wrappers.dfy` | `Wrappers` | `Option`, `Result` |
| `json.dfy` | `Json` | the JSON value a document parses to; member lookup, C strings and `json_object_get_string` |
| `replay_model.dfy` | `ReplayModel` | the replay items, the error kinds, the version constants, the action/reason vocabulary |
| `replay_parse.dfy` | `ReplayParse` | the decoder: a specification by functions, the imperative loops proved against it, its properties |
| `replay_serialize.dfy` | `ReplaySerialize` | the encoder: specification functions, the imperative loops, the shape of what it writes |
| `replay_roundtrip.dfy` | `ReplayRoundTrip` | encode-then-decode, with the carry-over characterised exactly |
| `color_escape.dfy` | `ColorEscape` | the colour table and `to_escape` |
| `pkg_colorizer.dfy` | `Colorizer` | the `PkgColorizer` class: constructor and `get_pkg_color` |

## Model

| member | source | states |
|---|---|---|
| ReplayParse.ParseTransactionReplay | libdnf5/transaction/transaction_sr.cpp:53-181 | The parse equals the decoder specification `Parse`. Empty input fails with EmptyInput; this test looks at the whole text. The tokenizer is given the text's C string. Text it rejects, or a bare `null` (json-c returns no object for it), fails with MalformedDocument. |
| Json.CString | libdnf5/transaction/transaction_sr.cpp:194-204 | A string passed through `c_str()` holds no NUL. |
| Json.CStringPrefix | libdnf5/transaction/transaction_sr.cpp:194-204 | The C string is the prefix of the string that stops just before its first NUL, or the whole string when it has none. |
| Json.CStringFixed | libdnf5/transaction/transaction_sr.cpp:194-204 | A string survives `c_str()` unchanged exactly when it has no NUL. |
| Json.CStringAppend | libdnf5/transaction/transaction_sr.cpp:69 | The C string of a concatenation stops in the first part when that part has a NUL. Otherwise it is the first part followed by the C string of the second. |
| Json.KeysMember | libdnf5/transaction/transaction_sr.cpp:68 | `json_object_object_get_ex` finds a key exactly when it is one of the object's keys; a non-object has none. |
| Json.StringOf | libdnf5/transaction/transaction_sr.cpp:90-96 | What `json_object_get_string` gives the decoder never holds a NUL. |
| ReplayParse.ReadString | libdnf5/transaction/transaction_sr.cpp:89-97 | Reading one key overwrites the working string with the member's string value, cut at its first NUL, when the key is present. Otherwise the working string keeps its previous value. |
| ReplayParse.ParseEnvironments | libdnf5/transaction/transaction_sr.cpp:80-102 | The environments loop, whose working strings live across elements, computes `DecodeEnvironments`. Item i is built from the last value of each key among elements 0..i. |
| ReplayParse.ParseGroups | libdnf5/transaction/transaction_sr.cpp:105-134 | The groups loop computes `DecodeGroups`. It uses the same carried working strings and converts the action and then the reason. |
| ReplayParse.ParsePackages | libdnf5/transaction/transaction_sr.cpp:137-176 | The rpms loop computes `DecodePackages`. Its six working strings carry over between elements. |
| ReplayParse.MajorOf | libdnf5/transaction/transaction_sr.cpp:69-71 | The major version is a prefix of the version string that contains no `.`. It is the whole string, or it is followed by a `.`. |
| ReplayParse.MajorOfUndotted | libdnf5/transaction/transaction_sr.cpp:69-71 | A version without a `.` is its own major version. |
| ReplayParse.MajorOfDotted | libdnf5/transaction/transaction_sr.cpp:69-71 | The major version of `major.minor` is `major`, whatever the minor part holds. |
| ReplayParse.VersionGate | libdnf5/transaction/transaction_sr.cpp:67-77 | Decoding fails with IncompatibleMajorVersion exactly when a `version` member is present and its major part is not `1`. A document without `version` passes. |
| ReplayParse.VersionGateOnVersions | libdnf5/transaction/transaction_sr.cpp:67-77 | `version` "M.m" is rejected exactly when the text of M before any NUL is not "1". For a NUL-free M, that is exactly when M is not "1". This holds for every minor part m. |
| ReplayParse.LatestIsLastPresent | libdnf5/transaction/transaction_sr.cpp:83-97 | The working string after elements 0..n is the key's value in the last element that has the key, or "" when none has it. |
| ReplayParse.DecodeArrayItems | libdnf5/transaction/transaction_sr.cpp:87-101 | An array decodes exactly when every element's item converts. The result then has one item per element, in order, and item i is the conversion after element i. |
| ReplayParse.DecodeArrayError | libdnf5/transaction/transaction_sr.cpp:99-100 | A failed array decode reports the error of some element's conversion. |
| ReplayParse.ItemErrorsAreVocabulary | libdnf5/transaction/transaction_sr.cpp:168-174 | Item decoding fails only on an unknown action, or for groups and packages an unknown reason. Environments never fail on a reason. |
| ReplayParse.DecodedDocument | libdnf5/transaction/transaction_sr.cpp:80-176 | A decoded document has one environment, group and package per element of the matching array, in order. An absent array gives none. |
| ReplayParse.NonObjectDocument | libdnf5/transaction/transaction_sr.cpp:66-176 | A document that is not an object has no `version` and no arrays, so it decodes to an empty replay. |
| ReplaySerialize.JsonSerialize | libdnf5/transaction/transaction_sr.cpp:183-263 | The encoder equals `SerializeDocument`. |
| ReplaySerialize.SerializeDocument | libdnf5/transaction/transaction_sr.cpp:183-263 | Encoding fails exactly when some collection has more than INT_MAX items. The packages check comes first and reports the package count. Otherwise the result is a JSON object. |
| ReplaySerialize.SerializePackages | libdnf5/transaction/transaction_sr.cpp:192-208 | The packages loop builds `PackageObjects`: one object per package, in order. |
| ReplaySerialize.SerializeGroups | libdnf5/transaction/transaction_sr.cpp:218-227 | The groups loop builds `GroupObjects`, one object per group in order. |
| ReplaySerialize.SerializeEnvironments | libdnf5/transaction/transaction_sr.cpp:237-247 | The environments loop builds `EnvironmentObjects`, one object per environment in order. |
| ReplaySerialize.PackageMembers | libdnf5/transaction/transaction_sr.cpp:193-205 | A package object always holds nevra, action, reason and repo_id. It holds package_path and group_id exactly when they are non-empty. Each value is the field's string cut at its first NUL. |
| ReplaySerialize.GroupMembers | libdnf5/transaction/transaction_sr.cpp:219-225 | A group object holds id, action, reason and repo_id, each the field's string cut at its first NUL. |
| ReplaySerialize.EnvironmentMembers | libdnf5/transaction/transaction_sr.cpp:238-244 | An environment object holds id, action and repo_id, each cut at its first NUL, and no reason. |
| ReplaySerialize.SerializedKeys | libdnf5/transaction/transaction_sr.cpp:190-255 | The document's keys are rpms, groups and environments (each only when non-empty), then version, in that order. |
| ReplaySerialize.SerializedMembers | libdnf5/transaction/transaction_sr.cpp:190-255 | `version` is "1.0". Each array member is present exactly when its collection is non-empty, and it holds that collection's objects. |
| ReplayRoundTrip.StringReadBack | libdnf5/transaction/transaction_sr.cpp:159-165 | A string written with `c_str()` is read back as that C string, unchanged. |
| ReplayRoundTrip.WordsReadBack | libdnf5/transaction/transaction_sr.cpp:150-153 | Under inverse conversions, an action or reason word is written and read back unchanged. |
| ReplayRoundTrip.CarriedValue | libdnf5/transaction/transaction_sr.cpp:155-166 | For an optional key written only when non-empty: with NUL-free values, the working string is "" exactly when every element so far had it empty. When the last element has it, it is that value cut at NUL. When the last element lacks it, the working string is the one before that element. |
| ReplayRoundTrip.CarriedPackagePath | libdnf5/transaction/transaction_sr.cpp:161-163 | The same for package_path over encoded packages. |
| ReplayRoundTrip.CarriedGroupId | libdnf5/transaction/transaction_sr.cpp:155-157 | The same for group_id over encoded packages. |
| ReplayRoundTrip.PackageItemRoundTrip | libdnf5/transaction/transaction_sr.cpp:147-174 | An encoded package always decodes. Its nevra and repo_id come back cut at NUL, and its package_path and group_id are the working strings after it. |
| ReplayRoundTrip.GroupsRoundTrip | libdnf5/transaction/transaction_sr.cpp:105-134 | Under inverse conversions, encoded groups always decode. They come back unchanged exactly when none of their strings holds a NUL. |
| ReplayRoundTrip.EnvironmentsRoundTrip | libdnf5/transaction/transaction_sr.cpp:80-102 | Under inverse conversions, encoded environments always decode. They come back unchanged exactly when none of their strings holds a NUL. |
| ReplayRoundTrip.PackagesDecode | libdnf5/transaction/transaction_sr.cpp:137-176 | Encoded packages always decode, to one package per package. |
| ReplayRoundTrip.PackageBack | libdnf5/transaction/transaction_sr.cpp:147-174 | With no NUL and no carry-over hazard, package i decodes to itself. |
| ReplayRoundTrip.PackageNulFreeAt | libdnf5/transaction/transaction_sr.cpp:147-174 | A package that decodes to itself holds no NUL. |
| ReplayRoundTrip.PackageNoHazardAt | libdnf5/transaction/transaction_sr.cpp:155-163 | If packages 0..i are NUL-free and package i decodes to itself with an empty package_path (group_id), then no package up to i has that field non-empty. |
| ReplayRoundTrip.PackagesBackOnly | libdnf5/transaction/transaction_sr.cpp:137-176 | Packages that come back unchanged hold no NUL and have no carry-over hazard. |
| ReplayRoundTrip.PackagesRoundTrip | libdnf5/transaction/transaction_sr.cpp:137-176 | Encoded packages decode to the same packages exactly when no string holds a NUL and no package with an empty package_path or group_id follows one where it is non-empty. |
| ReplayRoundTrip.DecodeSerialized | libdnf5/transaction/transaction_sr.cpp:53-263 | A transaction within the size limit encodes. Each encoded collection decodes, and the document decodes to the three decoded collections. |
| ReplayRoundTrip.RoundTrip | libdnf5/transaction/transaction_sr.cpp:53-263 | A transaction within the size limit encodes successfully. Decoding the document gives the transaction back exactly when no string holds a NUL and its packages have no carry-over hazard. |
| ReplayRoundTrip.TextRoundTrip | libdnf5/transaction/transaction_sr.cpp:53-64 | The same holds for parsing non-empty text whose C string tokenizes to the encoded document. |
| ReplayRoundTrip.SinglePackageReadBack | libdnf5/transaction/transaction_sr.cpp:147-174 | A single package comes back with each of its four strings cut at its first NUL. |
| ReplayRoundTrip.NulInNevra | libdnf5/transaction/transaction_sr.cpp:159 | A nevra "foo" NUL "bar" is read back as "foo". |
| ReplayRoundTrip.CarryOver | libdnf5/transaction/transaction_sr.cpp:161-163 | For NUL-free packages with no group_id, a package with a package_path followed by one without decodes with the second holding the first's path. |
| ReplayRoundTrip.CarryOverDocument | libdnf5/transaction/transaction_sr.cpp:53-263 | The same through a whole encoded and decoded document. |
| ReplayRoundTrip.CarryOverExample | libdnf5/transaction/transaction_sr.cpp:161-163 | A local package followed by a repository package decodes with the repository package holding the local package's path. |
| ColorEscape.ToEscape | libdnf5-cli/output/pkg_colorizer.cpp:48-66 | The loop over the split parts computes `EscapeOf`. That is "" for "", the input for a non-letter first character, and otherwise the concatenated table escapes of the known parts. |
| ColorEscape.Split | libdnf5-cli/output/pkg_colorizer.cpp:58 | Splitting yields at least one segment, and no segment contains the delimiter. |
| ColorEscape.SplitJoin | libdnf5-cli/output/pkg_colorizer.cpp:58 | Joining the segments with the delimiter gives back the original colour string. |
| ColorEscape.SplitUndelimited | libdnf5-cli/output/pkg_colorizer.cpp:58 | A colour without a comma is a single segment. |
| ColorEscape.TableNames | include/libdnf5-cli/output/pkg_colorizer.hpp:83-98 | The table's names are exactly the fourteen names bold … white. |
| ColorEscape.TableSize | include/libdnf5-cli/output/pkg_colorizer.hpp:83-98 | The table has 14 entries. |
| ColorEscape.EntryIsEscape | include/libdnf5-cli/output/pkg_colorizer.hpp:83-98 | Every table entry is an escape sequence: more than one character, starting with ESC. |
| ColorEscape.EscapesOfAppend | libdnf5-cli/output/pkg_colorizer.cpp:59-64 | The escapes of two runs of parts are the escapes of the first run followed by those of the second. |
| ColorEscape.EscapesShape | libdnf5-cli/output/pkg_colorizer.cpp:59-64 | The parts' escapes are empty exactly when no part is a table name. Otherwise they start with ESC. |
| ColorEscape.EscapeOfShape | libdnf5-cli/output/pkg_colorizer.cpp:48-65 | The result of to_escape is "" or starts with a non-letter. |
| ColorEscape.EscapeOfNothing | libdnf5-cli/output/pkg_colorizer.cpp:59-64 | A colour starting with a letter yields "" exactly when none of its parts is a known name. |
| ColorEscape.EscapeOfIdempotent | libdnf5-cli/output/pkg_colorizer.cpp:48-65 | to_escape applied to its own output changes nothing. |
| ColorEscape.EscapeOfName | libdnf5-cli/output/pkg_colorizer.cpp:56-64 | A known colour name becomes its table entry. |
| ColorEscape.EscapeOfPair | libdnf5-cli/output/pkg_colorizer.cpp:56-64 | Two known names joined by a comma give their two escapes, in order. |
| ColorEscape.EscapeOfDropsUnknown | libdnf5-cli/output/pkg_colorizer.cpp:59-64 | An unknown or empty part between two known names contributes nothing. |
| ColorEscape.EscapeOfComposed | libdnf5-cli/output/pkg_colorizer.cpp:56-65 | "bold,cyan" becomes ESC[1m ESC[36m. |
| ColorEscape.EscapeOfUnknownPart | libdnf5-cli/output/pkg_colorizer.cpp:59-64 | "bold,nosuchcolor,cyan" becomes ESC[1m ESC[36m. |
| ColorEscape.EscapeOfSingle | libdnf5-cli/output/pkg_colorizer.cpp:48-65 | "white" becomes ESC[1;37m, and an escape sequence passes through unchanged. |
| Colorizer.FirstByNaContents | libdnf5-cli/output/pkg_colorizer.cpp:42-44 | The base map's keys are exactly the base packages' name.archs. Each key maps to the first package with that name.arch. |
| Colorizer.PkgColorizer.constructor | libdnf5-cli/output/pkg_colorizer.cpp:31-45 | Each colour field is `to_escape` of its argument. The base map is the emplace-built first-by-name.arch map. The stored colours are fixed points of `to_escape`. |
| Colorizer.PkgColorizer.GetPkgColor | include/libdnf5-cli/output/pkg_colorizer.hpp:54-69 | Not found gives colorNotFound; evrcmp < 0 gives colorLt; = 0 gives colorEq; > 0 gives colorGt. The result is always one of the four fields, and is an escape sequence when they are. |
| Colorizer.ColorAgainstBase | include/libdnf5-cli/output/pkg_colorizer.hpp:54-69 | Against a base set: no base package with the name.arch gives colorNotFound. Otherwise the colour is decided by evrcmp against the first base package with that name.arch. |

## Left out

- The JSON text layer is not modelled. A document is a JSON value. The tokenizer is a parameter returning the value, or nothing for text that is not JSON. It stands for `json_tokener_parse` applied to the C string of the text, and the model hands it `CString(text)`, as the code hands it `c_str()`. The printer (`json_object_to_json_string_ext`) is not modelled, so the encoder's result is the JSON value it would print. The connection between the two is a hypothesis of `ReplayRoundTrip.TextRoundTrip`.
- The error message texts, their translation, and the json-c error detail are left out. The model keeps only the error kind and the offending value.
- `json_object_get_string` on a member whose value is `null` is left out. json-c gives a null pointer there, and assigning that to a `std::string` is undefined behaviour. The model reads "" instead.
- `json_object_get_string` on an array or object returns its JSON text. The model reads "" instead, because the printer is not modelled.
- A collection key whose value is not an array is left out: json-c's array accessors do not define that case. The model treats such a value as an empty array.
- Object keys are compared as whole strings. json-c's key lookup goes through C strings, so keys with a NUL in them are not modelled.
- Duplicate keys in one JSON object are left out: json-c keeps one value per key. The model's lookup takes the first member with the key.
- `transaction_item_action_from_string`, `transaction_item_reason_from_string` and their `to_string` partners are left abstract. They are function parameters, and the from-string side fails on an unknown word (UnknownAction / UnknownReason). The action and reason word lists are not part of this model.
- `std::in_range<int>` is modelled as the bound INT_MAX = 2^31 − 1 on collection sizes. `libdnf_throw_assertion` becomes the TooLarge error.
- `libdnf5::utils::string::split` is not part of this model; its behaviour is an assumption. It is modelled as splitting at every delimiter and keeping empty segments. `split(version, ".", 2)[0]` is the text before the first `.`, which a limit of two segments does not change.
- `rpm::evrcmp` and `get_na` are function parameters. The base `PackageSet` is a sequence in its iteration order.
- `Colorizer.PkgColorizer.GetPkgColor` takes the package's name.arch function and evrcmp as arguments. The class template `get_pkg_color<Package>` calls them directly.
- `isalpha` is the C-locale ASCII test.
- `base_na_version` is an unordered map in C++ and a Dafny `map` here. Iteration order over it is never used.
- The system-upgrade command (`dnf5/commands/system-upgrade/system-upgrade.cpp`) and its offline state machine are outside this model: download, reboot, apply and clean are CLI and file-system plumbing around the codec.
