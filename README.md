# MeatProfit license gate, modelled in Dafny

The program refuses to start unless a USB drive carries a valid license.
The gate is `LicenseManager` in `core/license_manager.py`, with the
signature check `verify_signature` from `utils/crypto.py`. It works in this order:

1. `find_usb_root` scans the drive letters D..Z in ascending order and stops at the
   first root that holds `.meatprofit.lic`.
2. `validate` logs "Проверка лицензии". If no drive was found it logs and raises
   "USB-ключ не найден".
3. Otherwise, inside one `try` block, it reads the token, Fernet-decrypts it and
   parses it as JSON. It then checks that `public_key.pem` exists in the current working
   directory and that the signature verifies. When the claims carry a
   `fingerprint`, it requires `fingerprint.txt` on the same root, and its stripped
   text must equal the claim. When all of that holds, it logs
   "Лицензия подтверждена".
4. A `LicenseError` raised inside the block passes through without being logged.
   Any other exception is logged as "Ошибка лицензии: <e>" and re-raised as
   `LicenseError(str(e))`.
5. `enforce` calls `validate`. On failure it logs and prints the reason and calls
   `sys.exit(1)`.

`verify_signature` goes through these steps:
- It returns False for a missing or empty `signature`, and for a signature that
  `bytes.fromhex` rejects.
- It rebuilds the signed bytes as `json.dumps` of the claims without `signature`,
  with sorted keys, encoded in UTF-8.
- It loads the PEM key. That call is outside the `try`, so a bad key raises.
- It maps every exception raised by `verify` to False.

## Layout

- `wrappers.dfy`: `Option`, and `PyCall`, which is a Python call that returns a value or
  raises an exception with a given `str()`.
- `bytestrings.dfy`: bytes, `bytes.fromhex`, `bytes.hex` and UTF-8 encoding.
- `pystr.dfy`: `str.isspace`, `str.strip` and Python's code-point order on `str`.
- `json.dfy`: a dict of string claims, kept in insertion order (`seq<Item>`); `get`, item
  assignment, the comprehension that drops a key, `sorted(d.items())`, and
  `json.dumps` with its default separators and `ensure_ascii` escaping.
- `crypto.dfy` (`utils/crypto.py`): the codec, the key and signature oracles, and
  `VerifySignature`. It also holds `SignPayload`, the issuer's signing step
  written the way the test suite constructs signed licenses.
- `license_manager.dfy` (`core/license_manager.py`):
  - the machine, a map from drive letter to that root's files plus the
    application directory;
  - `FindUsbRoot`, a loop over the letters;
  - the specification functions `Validation` and `Enforcement`, with the imperative
    methods `CheckLicense`, `Validate` and `Enforce` proved against them;
  - the audit log, a class holding an append-only `seq<string>`;
  - the lemmas.

Some collaborators are parameters and are not modelled: the Fernet codec, PEM loading,
RSASSA-PKCS1-v1_5 with SHA-256 (section 8.2 of RFC 8017), `json.loads` of the
UTF-8 text, and `Path.read_text`. Each is a total function inside the
`Runtime` value. Their laws are hypotheses, never axioms:
- `Crypto.RoundTrips`: Fernet decrypt undoes encrypt.
- `LicenseManager.LoadsInvertsDumps`: `json.loads` reads back what `json.dumps` wrote.

The model follows what the code does, including where that is easy to misread:
- There is one `LicenseError` class, not distinct failure kinds. Its message is one of
  the fixed texts, or the `str()` of whatever other exception the `try` block caught.
- A malformed public key raises. It is not reported as False.
- `LicenseError`s raised inside the `try` are not written to the audit log by
  `validate` (only `enforce` logs them).
- An unexpected exception becomes `LicenseError(str(e))`. A Fernet `InvalidToken`
  has an empty `str()`, so a bad token fails with the empty message and
  the audit entry "Ошибка лицензии: ".

## Model

| member | source | states |
|---|---|---|
| `ByteStrings.FromHexOfHex` | utils/crypto.py:37 | `fromhex` of the output of `hex()` gives back the original bytes, so the issuer's hex signature is read back exactly |
| `ByteStrings.FromHex` | utils/crypto.py:37-39 | `bytes.fromhex`: a successful decoding uses at least two characters of the text per byte |
| `ByteStrings.Hex` | tests/test_license_manager.py:36 | `signature.hex()` writes two characters per byte, each a hex digit and none whitespace |
| `ByteStrings.FromHexAfterHex` | utils/crypto.py:37 | the output of `hex()` followed by any text decodes to those bytes followed by the text's decoding, and fails when the text fails |
| `ByteStrings.FromHexOfPair` | utils/crypto.py:37 | the two digits `hex()` writes for a byte decode to that byte, in front of the decoding of whatever follows |
| `ByteStrings.FromHexSkipsSpaceBetweenPairs` | utils/crypto.py:37 | ASCII whitespace between byte pairs is skipped: pairs, whitespace, then more text decode as the pairs followed by the text's decoding |
| `ByteStrings.FromHexSkipsLeadingSpace` | utils/crypto.py:37 | ASCII whitespace in front of the hex text does not change what `fromhex` returns |
| `ByteStrings.FromHexRejectsSplitPair` | utils/crypto.py:37-39 | after any well-formed pairs, a hex digit followed by whitespace makes the whole text invalid, whatever follows (`fromhex` raises, and the model gives None) |
| `ByteStrings.FromHexAccepted` | utils/crypto.py:37-39 | accepted text holds only hex digits and ASCII whitespace, and has at least two characters per decoded byte |
| `ByteStrings.Utf8Encode` | utils/crypto.py:43 | UTF-8 encoding of ASCII text gives one byte per character, with the same code |
| `PyStr.IsSpace` | core/license_manager.py:60 | `str.isspace` on ASCII characters is exactly the whitespace `bytes.fromhex` skips plus the four separator controls U+001C..U+001F |
| `PyStr.LStrip` | core/license_manager.py:60 | the result is a suffix of the input; everything dropped is whitespace; the result does not start with whitespace |
| `PyStr.RStrip` | core/license_manager.py:60 | the result is a prefix of the input; everything dropped is whitespace; the result does not end with whitespace |
| `PyStr.Strip` | core/license_manager.py:60 | the result has no whitespace at either end, and it sits inside the input with only whitespace around it |
| `PyStr.StripPadded` | core/license_manager.py:60 | whitespace of any kind around a trimmed text strips back to exactly that text |
| `PyStr.StripIdempotent` | core/license_manager.py:60 | stripping twice is the same as stripping once |
| `PyStr.Less` | utils/crypto.py:43 | Python's `<` on `str`: a proper prefix sorts before the longer text, and no text sorts before one of its own prefixes or itself |
| `PyStr.LessIrreflexive` | utils/crypto.py:43 | no key sorts before itself |
| `PyStr.LessAsymmetric` | utils/crypto.py:43 | two keys never sort before each other |
| `PyStr.LessTransitive` | utils/crypto.py:43 | the key order is transitive |
| `PyStr.LessTotal` | utils/crypto.py:43 | of two distinct keys, one sorts first |
| `Json.Get` | utils/crypto.py:32 | `payload.get(k)` is None exactly when `k` is not a key; otherwise the returned value is the value stored under `k` |
| `Json.ToMap` | utils/crypto.py:43 | the mapping has exactly the dict's keys, and it agrees with `get` on every key |
| `Json.SameMapSameGet` | utils/crypto.py:32 | dicts with the same mapping give the same `get` result for every key |
| `Json.SameGetSameMap` | utils/crypto.py:42-43 | dicts on which `get` agrees for every key denote the same mapping |
| `Json.Set` | tests/test_license_manager.py:35-36 | `d[k] = v` with a new key appends the item at the end, leaving the existing items in place |
| `Json.SetGet` | tests/test_license_manager.py:35-36 | after `d[k] = v`, `k` maps to `v` and every other key keeps its value |
| `Json.SetFreshKeyUnique` | tests/test_license_manager.py:35-36 | assigning a new key keeps all keys distinct |
| `Json.Without` | utils/crypto.py:42 | the comprehension keeps exactly the items whose key is not `k`, each unchanged, and keeps keys distinct |
| `Json.WithoutAbsent` | utils/crypto.py:42 | filtering out a key the dict does not hold returns the same dict |
| `Json.WithoutAfterSet` | utils/crypto.py:42 | assigning a new key and then filtering it out gives back the original dict, in the same order |
| `Json.WithoutAppended` | utils/crypto.py:42 | filtering out the key of an item appended at the end removes that item |
| `Json.Insert` | utils/crypto.py:43 | one insertion step adds exactly the inserted item to the multiset of items |
| `Json.SortByKey` | utils/crypto.py:43 | `sorted(d.items())` is a permutation of the items |
| `Json.InsertSorted` | utils/crypto.py:43 | inserting an item with a new key into a sorted list keeps it strictly sorted |
| `Json.PrependSmaller` | utils/crypto.py:43 | an item whose key sorts before the head of a sorted list can be put in front of it |
| `Json.HeadBelowTail` | utils/crypto.py:43 | in a strictly sorted list, the head's key sorts before the key of every later item |
| `Json.ConsSorted` | utils/crypto.py:43 | an item whose key sorts before every key of a sorted list can be put in front of it |
| `Json.SortByKeySorted` | utils/crypto.py:43 | the sorted items of a dict come in strictly ascending key order |
| `Json.SortedUnique` | utils/crypto.py:43 | two strictly sorted lists with the same items are equal |
| `Json.ItemsOfMap` | utils/crypto.py:43 | an item is in a dict exactly when the dict's mapping holds that key with that value |
| `Json.SortByKeyDependsOnlyOnMap` | utils/crypto.py:43 | dicts with the same key-to-value mapping sort to the same sequence, whatever their insertion order |
| `Json.UnicodeEscape` | utils/crypto.py:43 | a `\uXXXX` escape is six printable ASCII characters |
| `Json.EscapeChar` | utils/crypto.py:43 | every escaped character is printable ASCII; printable characters other than `"` and `\` stand for themselves |
| `Json.Escape` | utils/crypto.py:43 | an escaped string is printable ASCII |
| `Json.Quote` | utils/crypto.py:43 | a quoted string is printable ASCII |
| `Json.Member` | utils/crypto.py:43 | a serialised item is printable ASCII |
| `Json.Members` | utils/crypto.py:43 | the serialised item list is printable ASCII |
| `Json.Dumps` | utils/crypto.py:43 | the `json.dumps` text is printable ASCII, so its UTF-8 encoding has one byte per character |
| `Crypto.DecryptLicense` | utils/crypto.py:18-22 | a failed decryption raises InvalidToken, whose message is empty |
| `Crypto.EncryptLicense` | utils/crypto.py:11-15 | given the codec law, the token decrypts to exactly the data it was made from |
| `Crypto.CodecRoundTrip` | utils/crypto.py:11-22 | given the codec law, `decrypt_license(encrypt_license(P)) == P` for any random material |
| `Crypto.SignedData` | utils/crypto.py:42 | the signed claims are the payload with exactly `signature` removed; every other key keeps its value |
| `Crypto.CanonicalBytes` | utils/crypto.py:43 | the signed bytes have the length of the sorted `json.dumps` text (the text is ASCII) |
| `Crypto.VerifySignature` | utils/crypto.py:25-58 | a True verdict is only ever given for a JSON object |
| `Crypto.VerifyIffAccepted` | utils/crypto.py:25-58 | True exactly for an object whose `signature` is non-empty valid hex, with a key that loads and an oracle that accepts that signature over the canonical bytes of the claims without `signature` |
| `Crypto.UnsignedRejected` | utils/crypto.py:32-34 | a missing or empty `signature` gives False, for every key and every oracle |
| `Crypto.BadHexRejected` | utils/crypto.py:36-39 | a signature that is not valid hex gives False, for every key and every oracle |
| `Crypto.VerdictIsOracle` | utils/crypto.py:42-58 | once the hex decodes, a key that fails to load raises with the loader's message; otherwise the result is exactly the oracle's verdict on the canonical bytes of the claims without `signature`, and every exception from `verify` becomes False |
| `Crypto.NonObjectRaises` | utils/crypto.py:32 | a payload that is not a JSON object raises AttributeError from `payload.get` |
| `Crypto.CanonicalOrderIndependent` | utils/crypto.py:42-43 | the canonical bytes depend only on the key-to-value mapping, not on insertion order |
| `Crypto.SameClaimsSameInputs` | utils/crypto.py:32-43 | dicts with the same mapping give the same `signature` field and the same signed bytes |
| `Crypto.VerdictDependsOnlyOnMap` | utils/crypto.py:25-58 | for real dicts, `verify_signature` gives the same result (value or exception) for any two dicts with the same key-to-value mapping |
| `Crypto.SignPayload` | tests/test_license_manager.py:28-37 | the signed copy holds the hex of the issuer's signature over the canonical bytes under `signature`; every other key keeps its value |
| `Crypto.IssuerRoundTrip` | utils/crypto.py:42-43 | for claims without `signature`, adding the signature and stripping it again gives exactly the issuer's claims and the issuer's bytes |
| `Crypto.IssuedLicenseVerdict` | tests/test_license_manager.py:28-37 | an issued license is judged by the oracle on the exact signature and bytes the issuer produced |
| `LicenseManager.FirstLicensedFrom` | core/license_manager.py:28-32 | the first licensed letter at or after a given one, with no licensed letter between them; None exactly when no letter up to Z has the file |
| `LicenseManager.FindUsbRoot` | core/license_manager.py:22-32 | returns the first letter in D..Z whose root holds `.meatprofit.lic`; no earlier letter has it; None exactly when none of D..Z has it |
| `LicenseManager.AuditLogger.Log` | core/license_manager.py:36 | appends exactly one entry to the audit log |
| `LicenseManager.Console.Print` | core/license_manager.py:80 | appends exactly one printed line |
| `LicenseManager.FingerprintCheck` | core/license_manager.py:58-61 | the fingerprint step passes exactly when `FingerprintBound` holds; its LicenseError is always "Отпечаток USB не совпадает", and any other exception is the one `read_text` raised |
| `LicenseManager.LicenseChecks` | core/license_manager.py:43-63 | a LicenseError raised in the try block carries one of the three fixed messages; a token that does not decrypt raises InvalidToken with the empty message |
| `LicenseManager.Validation` | core/license_manager.py:34-69 | every run logs "Проверка лицензии" first and at most one more entry; it succeeds exactly when the audit is "Проверка лицензии", "Лицензия подтверждена" |
| `LicenseManager.Enforcement` | core/license_manager.py:71-81 | `enforce` continues exactly when `validate` succeeds, printing nothing; otherwise it exits with status 1 after printing one line; its audit trail extends that of `validate` |
| `LicenseManager.CheckLicense` | core/license_manager.py:43-63 | the try block raises what the first failing check raises, logging "Лицензия подтверждена" only when nothing is raised |
| `LicenseManager.Validate` | core/license_manager.py:34-69 | the outcome and the new audit entries are those of `Validation` |
| `LicenseManager.Enforce` | core/license_manager.py:71-81 | the termination, the audit entries and the printed lines are those of `Enforcement` |
| `LicenseManager.ValidIffAccepted` | core/license_manager.py:43-63 | `validate` succeeds iff device, decryption, parse, key file, signature and fingerprint conditions all hold |
| `LicenseManager.ConfirmedIffValid` | core/license_manager.py:36-69 | every run leaves at least one audit entry, and the trail ends with "Лицензия подтверждена" exactly when `validate` succeeds |
| `LicenseManager.NoDeviceRun` | core/license_manager.py:36-41 | without a device, it fails with "USB-ключ не найден" after exactly two audit entries, whatever the other files and primitives are |
| `LicenseManager.DecryptFailureDecides` | core/license_manager.py:43-69 | a token that fails to decrypt ends the run with the empty InvalidToken message, logged, before any later check |
| `LicenseManager.ParseFailureDecides` | core/license_manager.py:46-69 | a decode or parse error is logged and re-raised with its message, before any later check |
| `LicenseManager.MissingKeyDecides` | core/license_manager.py:48-49 | a missing `public_key.pem` after a good parse fails without an audit entry of its own, before the signature is checked |
| `LicenseManager.SignatureRejectionDecides` | core/license_manager.py:54-55 | a False verdict fails with "Неверная подпись лицензии" before the fingerprint is checked |
| `LicenseManager.MalformedKeyIsError` | utils/crypto.py:45 | a key that fails to load, behind a well-formed signature field, is logged and re-raised with the loader's message; it is not reported as a bad signature |
| `LicenseManager.FingerprintNotRequired` | core/license_manager.py:58 | without a `fingerprint` claim, a verified license succeeds, whatever the fingerprint file holds and whether it exists |
| `LicenseManager.FingerprintDecides` | core/license_manager.py:58-61 | with a claim, success iff `fingerprint.txt` on the same root exists, reads, and strips to the claim; a missing or different file fails with "Отпечаток USB не совпадает" |
| `LicenseManager.PaddedFingerprintAccepted` | core/license_manager.py:60 | a fingerprint file holding the claim with whitespace around it is accepted |
| `LicenseManager.ExceptionsNormalised` | core/license_manager.py:65-69 | the run raises LicenseError with the message of whatever the try block raised; a LicenseError gets no audit entry, any other exception is logged first |
| `LicenseManager.EnforceGate` | core/license_manager.py:76-81 | `enforce` continues iff every condition holds; otherwise it appends "Ошибка лицензии: <e>", prints "ОШИБКА ЛИЦЕНЗИИ: <e>" and exits with status 1 |
| `LicenseManager.NoDeviceEnforced` | tests/test_license_manager.py:80-83 | without a device, `enforce` exits with status 1 after three audit entries and one printed line |
| `LicenseManager.IssuedLicenseAccepted` | tests/test_license_manager.py:40-71 | a license signed, serialised and encrypted by the issuer with a matching fingerprint file and public key validates, given the codec and parser laws |
| `LicenseManager.VerdictIgnoresKeyOrder` | core/license_manager.py:46-54 | for a parser that returns dicts with distinct keys, the verdict on the parsed claims equals the verdict on any dict with the same mapping |

## Left out

- Fernet internals and the embedded key (utils/crypto.py:7): the codec is a pair of functions with a round-trip law, and decryption may fail.
- RSA PKCS#1 v1.5 with SHA-256, and PEM/SubjectPublicKeyInfo parsing: these are the oracles `Rsa.loadPem` and `Rsa.verify`. Tamper detection and unforgeability are properties of those primitives, so they are not stated.
- Injectivity of the canonical serialiser is not proved. The model therefore does not state that altering a claim after signing makes the signature fail (the scenario where a claim is changed after signing). It only states that the oracle judges the altered bytes.
- `json.loads` and UTF-8 decoding: a partial function supplied by the caller. Claim values are strings only. Numbers, nested objects and `str()` of non-string values are not modelled.
- Dafny strings cannot hold lone surrogates. `json.loads` produces them from `\udXXX` escapes, and
  `json.dumps` with `ensure_ascii` escapes them again, so such claims are valid in Python but cannot
  be represented in the model.
- `json.loads` keeps the last of duplicate keys, so it never returns a dict with a repeated key. The
  model's dict type does not exclude duplicates; the hypothesis `LicenseManager.LoadsGivesDistinctKeys`
  states the parser's side, and lemmas that need distinct keys require it.
- `Path.read_text` and its platform encoding: a partial function supplied by the caller.
- The filesystem is a set of maps. This leaves out `OSError` from `exists` or reading, races between `exists` and reading, and paths below a drive root.
- Python's `sorted` compares `(key, value)` tuples, but the model compares keys only. Dict keys are distinct, so the order is the same.
- `print` and `sys.exit`: they become a list of printed lines and a `Termination` value. "Never returns" is modelled as `Exit(1)`.
- The AuditLogger implementation (core/audit_logger.py is not part of this model): an append-only list. An exception raised by the logger itself is not modelled.
- key_manager/__main__.py and `clone_key` (interactive UI and I/O, not part of the gate).
- The unused constant `SIGNATURE_FILE` (core/license_manager.py:8).
- The test's monkeypatching of `find_usb_root` and of `PUBLIC_KEY_FILE`: the model's machine describes the files directly.
