# Firebase-ready JSON normaliser, modelled in Dafny

`Merger_Json_Files_To_firebase.py` reads three JSON documents (bills, parties,
products), rewrites each one into a shape the Firebase Realtime Database
accepts, and writes the three results under one object. This project models
the rewriting core and proves what it guarantees:

- `sanitize_key` strips a key, deletes `"`, turns `/`, space and `\` into `_`,
  deletes everything outside `[A-Za-z0-9_]`, and falls back to `UNKNOWN_KEY`
  when nothing is left (module `KeySanitizer`);
- `array_to_object` turns a list into an object keyed by `str(index)`, skipping
  `null` elements (module `FirebaseFix`);
- `fix_structure` applies this recursively, sanitises every object key, and
  replaces `\` by `/` in every string (module `FirebaseFix`);
- the final object holds the three fixed documents under `bills`, `party_data`
  and `product_data` (`FirebaseFix.FinalJson`).

Supporting modules:

- `JsonValue`: a parsed JSON value.
- `PyStr`: the `str` operations used, which are `strip()`, single-character
  `replace`, and `str(n)` for an index.
- `PyDict`: a Python `dict` as an association list in insertion order.
  `Put` is `d[k] = v`. It overwrites an existing key where that key stands
  and appends a new key at the end. `FromPairs` is the dict a loop builds
  from `{}` by storing pairs in order.

`fix_structure` and `array_to_object` are modelled twice:

- as methods (`FixStructure`, `ArrayToObject`) whose loops fill a fresh dict
  as the source's loops do;
- as the function `Fixed`, which the methods are proved to compute.

The properties are proved about `Fixed`:

- the output is always Firebase-ready: no arrays, safe and distinct keys, and
  no `\` in any string;
- a Firebase-ready value is left unchanged, so `fix_structure` is idempotent;
- arrays become exactly one entry per non-`null` element;
- when several keys sanitise to the same key, the last member written wins,
  and the key keeps the position where it first appeared.

Invoice totals, numbering and commission logic live elsewhere in the
application and are not modelled.

## Model

| member | source | states |
|---|---|---|
| PyStr.TrimStartSpec | Merger_Json_Files_To_firebase.py:41 | the leading-whitespace trim returns the suffix of the key that starts at its first non-whitespace character, and everything it removes is whitespace |
| PyStr.TrimEndSpec | Merger_Json_Files_To_firebase.py:41 | the trailing-whitespace trim returns the prefix that ends at the last non-whitespace character, and everything it removes is whitespace |
| PyStr.StripRemovesOnlyMargins | Merger_Json_Files_To_firebase.py:41 | `strip()` of whitespace-only margins around a core that starts and ends with non-whitespace gives back exactly that core, including any whitespace inside it |
| PyStr.ReplaceCharSpec | Merger_Json_Files_To_firebase.py:44-46 | `replace(a, b)` with single characters keeps the length and changes exactly the positions that held `a` |
| PyStr.Strip | Merger_Json_Files_To_firebase.py:41 | `key.strip()`: both margins of whitespace trimmed; its contract is held by `PyStr.TrimStartSpec`, `PyStr.TrimEndSpec` and `PyStr.StripRemovesOnlyMargins` |
| PyStr.ReplaceChar | Merger_Json_Files_To_firebase.py:44-46 | single-character `replace`; its contract is held by `PyStr.ReplaceCharSpec` |
| PyStr.RemoveChar | Merger_Json_Files_To_firebase.py:43 | `replace('"', '')`; its contract is held by `PyStr.RemoveCharSpec`, `PyStr.RemoveCharOne` and `PyStr.RemoveCharConcat` |
| PyStr.RemoveCharSpec | Merger_Json_Files_To_firebase.py:43 | `replace('"', '')` never lengthens the key; a character is in the result if and only if it was in the key and is not `"`; a key without `"` is returned unchanged |
| PyStr.RemoveCharOne | Merger_Json_Files_To_firebase.py:43 | on a single character, `replace('"', '')` deletes it if it is `"` and keeps it otherwise |
| PyStr.RemoveCharConcat | Merger_Json_Files_To_firebase.py:43 | `replace('"', '')` of a concatenation is the concatenation of the two results, so kept characters stay in order, each copy kept; with the one-character law this determines the result on every key |
| PyStr.NatToDecimal | Merger_Json_Files_To_firebase.py:33 | `str(idx)` is a nonempty string of decimal digits that has a leading `0` only for index 0, and `str(0)` is `"0"` |
| PyStr.DecimalRoundTrip | Merger_Json_Files_To_firebase.py:33 | reading `str(idx)` back as a decimal number gives `idx` |
| PyStr.NatToDecimalInjective | Merger_Json_Files_To_firebase.py:33 | two indices give the same `str` key if and only if they are equal |
| PyDict.Get | Merger_Json_Files_To_firebase.py:87-91 | looking up a key of a dict; its contract is held by `PyDict.GetFindsKey` and `PyDict.PutThenGet` |
| PyDict.Put | Merger_Json_Files_To_firebase.py:67 | `d[k] = v`; its contract is held by `PyDict.PutKeys`, `PyDict.PutThenGet`, `PyDict.PutEntries`, `PyDict.PutKeepsKeysUnique` and `PyDict.PutNewKeyAppends` |
| PyDict.FromPairs | Merger_Json_Files_To_firebase.py:64-67 | the dict a loop builds from `{}`; its contract is held by `PyDict.FromPairsKeys`, `PyDict.FromPairsEntries`, `PyDict.FromPairsLastWins`, `PyDict.FromPairsKeyOrder` and `PyDict.FromPairsDistinct` |
| PyDict.GetFindsKey | Merger_Json_Files_To_firebase.py:64-67 | a lookup finds a value if and only if the key is present, and the value it finds is stored under that key |
| PyDict.PutKeys | Merger_Json_Files_To_firebase.py:67 | `d[k] = v` keeps the existing keys in place and appends `k` only when `k` is new |
| PyDict.PutThenGet | Merger_Json_Files_To_firebase.py:67 | after `d[k] = v`, `k` maps to `v` and every other key maps to what it did before |
| PyDict.PutEntries | Merger_Json_Files_To_firebase.py:67 | `d[k] = v` adds no entry other than `(k, v)` |
| PyDict.PutKeepsKeysUnique | Merger_Json_Files_To_firebase.py:67 | `d[k] = v` never makes a key appear twice |
| PyDict.PutNewKeyAppends | Merger_Json_Files_To_firebase.py:33 | storing a key the dict does not hold appends exactly one entry at the end |
| PyDict.FromPairsSnoc | Merger_Json_Files_To_firebase.py:64-67 | storing one more pair is one more `d[k] = v` on the dict built so far |
| PyDict.FromPairsKeys | Merger_Json_Files_To_firebase.py:64-67 | the dict built by the loop holds each key once, and a key is held if and only if some stored pair has it |
| PyDict.FromPairsEntries | Merger_Json_Files_To_firebase.py:64-67 | every entry of the built dict is one of the stored pairs |
| PyDict.FromPairsLastWins | Merger_Json_Files_To_firebase.py:64-67 | the value held under a key is the one from the last pair stored with that key |
| PyDict.FromPairsKeyOrder | Merger_Json_Files_To_firebase.py:64-67 | the keys of the built dict are the keys of the pairs in order of first appearance |
| PyDict.FromPairsDistinct | Merger_Json_Files_To_firebase.py:29-33 | pairs with distinct keys build a dict that equals those pairs, in the same order |
| KeySanitizer.KeepKeyChars | Merger_Json_Files_To_firebase.py:48 | `re.sub(r'[^A-Za-z0-9_]', '', s)`; its contract is held by `KeySanitizer.KeepKeyCharsSpec`, `KeySanitizer.KeepKeyCharsOne` and `KeySanitizer.KeepKeyCharsConcat` |
| KeySanitizer.KeepKeyCharsSpec | Merger_Json_Files_To_firebase.py:48 | `re.sub(r'[^A-Za-z0-9_]', '', s)` never lengthens the key, leaves only `[A-Za-z0-9_]`, and returns a key made only of those characters unchanged |
| KeySanitizer.KeepKeyCharsOne | Merger_Json_Files_To_firebase.py:48 | on a single character, the substitution keeps it exactly when it is in `[A-Za-z0-9_]` |
| KeySanitizer.KeepKeyCharsConcat | Merger_Json_Files_To_firebase.py:48 | the substitution of a concatenation is the concatenation of the two results, so kept characters stay in order, each copy kept; with the one-character law this determines the result on every key |
| KeySanitizer.ReplaceCharConcat | Merger_Json_Files_To_firebase.py:44-46 | single-character `replace` of a concatenation is the concatenation of the two results |
| KeySanitizer.Scrub | Merger_Json_Files_To_firebase.py:43-48 | the replacement chain on the stripped key; its contract is held by `KeySanitizer.KeepKeyCharsOfScrub` and `KeySanitizer.ScrubIsClean` |
| KeySanitizer.KeepKeyCharsOfScrub | Merger_Json_Files_To_firebase.py:43-48 | after the whole replacement chain, only `[A-Za-z0-9_]` characters remain |
| KeySanitizer.SanitizeKey | Merger_Json_Files_To_firebase.py:40-53 | the returned key is never empty and is made only of `[A-Za-z0-9_]` |
| KeySanitizer.ScrubIsClean | Merger_Json_Files_To_firebase.py:43-48 | the four replacements followed by the regular-expression deletion equal an independent per-character rule: `/`, space and `\` become `_`, letters, digits and `_` stay, and everything else disappears |
| KeySanitizer.CleanEmptyIff | Merger_Json_Files_To_firebase.py:48-51 | the cleaned key is empty if and only if no character of the stripped key is a letter, digit, `_`, `/`, space or `\` |
| KeySanitizer.CleanKeepsKeyChars | Merger_Json_Files_To_firebase.py:48 | a string made only of `[A-Za-z0-9_]` passes the cleaning unchanged |
| KeySanitizer.SanitizeKeyByCharacter | Merger_Json_Files_To_firebase.py:40-53 | `sanitize_key(key)` is the per-character cleaning of `key.strip()`, or `UNKNOWN_KEY` when that cleaning is empty |
| KeySanitizer.SanitizeKeyUnknown | Merger_Json_Files_To_firebase.py:48-51 | `UNKNOWN_KEY` is returned when no character of the stripped key survives; otherwise the result is the nonempty cleaned key |
| KeySanitizer.SanitizeKeyIgnoresMargins | Merger_Json_Files_To_firebase.py:41-46 | outer whitespace is stripped before spaces are replaced, so the result depends only on the core between the margins and outer spaces never become `_` |
| KeySanitizer.SafeKeyIsStripped | Merger_Json_Files_To_firebase.py:41 | a key that is already safe has nothing to strip |
| KeySanitizer.SafeKeyUnchanged | Merger_Json_Files_To_firebase.py:40-53 | a nonempty key made only of `[A-Za-z0-9_]` is returned unchanged |
| KeySanitizer.SanitizeKeyIdempotent | Merger_Json_Files_To_firebase.py:40-53 | sanitising a sanitised key changes nothing |
| FirebaseFix.Fixed | Merger_Json_Files_To_firebase.py:59-73 | the value `fix_structure` returns; its contract is held by `FirebaseFix.FixStructure`, `FirebaseFix.FixedIsReady`, `FirebaseFix.ReadyIsFixed` and `FirebaseFix.FixStructureIdempotent` |
| FirebaseFix.ArrayMembers | Merger_Json_Files_To_firebase.py:30-33 | the pairs `array_to_object` stores; its contract is held by `FirebaseFix.ArrayMembersKeys`, `FirebaseFix.ArrayMembersCount` and `FirebaseFix.ArrayMembersContents` |
| FirebaseFix.ObjectMembers | Merger_Json_Files_To_firebase.py:65-67 | the pairs the object loop stores; its contract is held by `FirebaseFix.ObjectMembersAt` and `FirebaseFix.ObjectMembersReady` |
| FirebaseFix.FixStructure | Merger_Json_Files_To_firebase.py:59-73 | the recursive function, with its loop filling `new_dict`, computes `Fixed(data)` |
| FirebaseFix.ArrayToObject | Merger_Json_Files_To_firebase.py:28-34 | the loop over `enumerate(arr)` that skips `None` computes `Fixed` of the array |
| FirebaseFix.DictOfReadyPairs | Merger_Json_Files_To_firebase.py:64-67 | storing pairs with safe keys and Firebase-ready values into `{}` gives a Firebase-ready object |
| FirebaseFix.FixedIsReady | Merger_Json_Files_To_firebase.py:59-73 | for every input, the output has no array at any depth, only safe and distinct keys, and no `\` in any string |
| FirebaseFix.ArrayMembersReady | Merger_Json_Files_To_firebase.py:30-33 | every pair `array_to_object` stores has a safe key and a Firebase-ready value |
| FirebaseFix.ObjectMembersReady | Merger_Json_Files_To_firebase.py:65-67 | every pair the object loop stores has a safe key and a Firebase-ready value |
| FirebaseFix.ReadyIsFixed | Merger_Json_Files_To_firebase.py:59-73 | a value that is already Firebase-ready comes back unchanged |
| FirebaseFix.ReadyMembersFixed | Merger_Json_Files_To_firebase.py:65-67 | on a Firebase-ready object, the loop stores every member exactly as it was |
| FirebaseFix.FixStructureIdempotent | Merger_Json_Files_To_firebase.py:59-73 | applying `fix_structure` twice gives the same result as applying it once |
| FirebaseFix.FixedString | Merger_Json_Files_To_firebase.py:70-71 | a string keeps its length; each `\` becomes `/` and every other character stays in place |
| FirebaseFix.FixedScalar | Merger_Json_Files_To_firebase.py:73 | numbers, booleans and `null` come back unchanged |
| FirebaseFix.ArrayMembersKeys | Merger_Json_Files_To_firebase.py:30-33 | every key `array_to_object` stores is `str(i)` for an index already seen, and no key is stored twice |
| FirebaseFix.ArrayMembersCount | Merger_Json_Files_To_firebase.py:30-33 | one pair is stored per non-`null` element |
| FirebaseFix.ArrayMembersContents | Merger_Json_Files_To_firebase.py:30-33 | a pair is stored if and only if it is `(str(i), fix_structure(arr[i]))` for a non-`null` element `i` |
| FirebaseFix.ArrayToObjectEntries | Merger_Json_Files_To_firebase.py:28-34 | the result has exactly one entry per non-`null` element, keyed by the original index so gaps stay visible, in index order, with fixed values |
| FirebaseFix.ObjectMembersAt | Merger_Json_Files_To_firebase.py:65-67 | the object loop stores, for member `i`, the pair of its sanitised key and its fixed value |
| FirebaseFix.FixStructureObjectKeys | Merger_Json_Files_To_firebase.py:63-68 | the keys of a fixed object are exactly the sanitised input keys, each once |
| FirebaseFix.FixStructureObjectKeyOrder | Merger_Json_Files_To_firebase.py:63-68 | the keys of a fixed object are the sanitised input keys in order of first appearance: a later member with the same sanitised key overwrites the value but does not move the key |
| FirebaseFix.FixStructureObjectLastWins | Merger_Json_Files_To_firebase.py:63-68 | when keys sanitise alike, the value comes from the last such member in iteration order |
| FirebaseFix.FixStructureObjectNoCollision | Merger_Json_Files_To_firebase.py:63-68 | when no two keys sanitise alike, the result has one entry per member, in input order |
| FirebaseFix.FinalJson | Merger_Json_Files_To_firebase.py:87-91 | the output object is Firebase-ready, and `bills`, `party_data` and `product_data` hold the three inputs, each fixed |

## Left out

- Reading the three input files (`load_json`, lines 20-22 and 79-81) and
  writing the output file (lines 97-98) are file I/O. The model takes the
  three parsed documents as parameters and returns the final object.
- JSON parsing and serialisation (`json.load` and `json.dump` with
  `indent=2, ensure_ascii=False`) are not modelled. Input values are the
  parsed `Json` datatype.
- The two status lines printed at the end (lines 100-101) are console output
  and are not modelled.
- Numbers are kept as their literal text. `fix_structure` passes them through
  untouched, so their value and precision play no part.
- PyStr.IsWhitespace lists the characters that Python's `str.isspace()`
  accepts, since `strip()` with no argument removes exactly these. The model
  does not go through the Unicode database.
- KeySanitizer.SanitizeKey takes a string. `str(key)` is the identity on the
  string keys that JSON objects have.
- The fresh dicts `result` and `new_dict` are modelled as local
  association-list values. They are never shared before they are returned,
  so aliasing plays no part.
- Duplicate keys inside one input JSON object are resolved by `json.load`
  before `fix_structure` runs. The model accepts any member list, so it also
  covers inputs that hold a key twice.
- Invoice totals, numbering and commission logic live elsewhere in the
  application and are not modelled.
- FirebaseFix.FixStructure is total. In Python, `fix_structure` and
  `array_to_object` use one or two call frames per nesting level, so a deeply
  enough nested document raises `RecursionError` and no output is written.
  The model does not capture that failure.
- JsonValue.Json holds strings of Unicode scalar values. `json.load` also
  accepts lone surrogates such as `"\ud800"` in keys and strings, and the
  model cannot represent such input.
