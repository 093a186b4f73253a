/** core/license_manager.py: the license gate. `validate` finds the USB
    device, decrypts and parses the license token on it, checks the
    signature against the application's public key and, when the claims
    carry one, the device fingerprint; `enforce` turns any failure into
    process exit status 1. */
module LicenseManager {
  import opened Wrappers
  import opened ByteStrings
  import PyStr
  import Json
  import Crypto

  const LICENSE_FILENAME := ".meatprofit.lic"
  const FINGERPRINT_FILE := "fingerprint.txt"
  const PUBLIC_KEY_FILE := "public_key.pem"
  const FINGERPRINT_KEY := "fingerprint"

  const MSG_CHECKING := "Проверка лицензии"
  const MSG_NO_DEVICE := "USB-ключ не найден"
  const MSG_NO_PUBLIC_KEY := "Файл public_key.pem не найден в приложении"
  const MSG_BAD_SIGNATURE := "Неверная подпись лицензии"
  const MSG_FINGERPRINT_MISMATCH := "Отпечаток USB не совпадает"
  const MSG_CONFIRMED := "Лицензия подтверждена"
  /** Prefix of the audit entry for a failure. */
  const AUDIT_ERROR_PREFIX := "Ошибка лицензии: "
  /** Prefix of the message `enforce` prints. */
  const CONSOLE_ERROR_PREFIX := "ОШИБКА ЛИЦЕНЗИИ: "

  /** The files the gate can see: the root directory of every mounted drive
      letter, and the application's working directory. */
  datatype Machine = Machine(drives: map<char, map<string, Bytes>>, appDir: map<string, Bytes>)

  /** The library calls the gate makes whose internals are not modelled:
      the Fernet codec, the public-key primitives, `json.loads` applied to
      the UTF-8 decoding of the plaintext, and `Path.read_text()`. */
  datatype Runtime = Runtime(fernet: Crypto.Fernet, rsa: Crypto.Rsa,
                             loads: Bytes -> PyCall<Json.Value>,
                             readText: Bytes -> PyCall<string>)

  /** The letters `find_usb_root` scans, `ord("D")` through `ord("Z")`. */
  predicate IsDriveLetter(c: char) {
    'D' <= c <= 'Z'
  }

  /** `(Path(f"{c}:/") / LICENSE_FILENAME).exists()`. */
  predicate HasLicense(m: Machine, c: char) {
    c in m.drives && LICENSE_FILENAME in m.drives[c]
  }

  /** The first letter from code point `c` up to Z whose root holds the license. */
  function FirstLicensedFrom(m: Machine, c: int): (r: Option<char>)
    requires 'D' as int <= c <= 'Z' as int + 1
    ensures r.Some? ==> c <= r.value as int && IsDriveLetter(r.value) && HasLicense(m, r.value)
    ensures r.Some? ==> forall d: char :: c <= d as int < r.value as int ==> !HasLicense(m, d)
    ensures r.None? <==> forall d: char :: c <= d as int <= 'Z' as int ==> !HasLicense(m, d)
    decreases 'Z' as int + 1 - c
  {
    if c > 'Z' as int then None
    else if HasLicense(m, c as char) then Some(c as char)
    else FirstLicensedFrom(m, c + 1)
  }

  /** The drive `find_usb_root` reports. */
  function UsbRoot(m: Machine): Option<char> {
    FirstLicensedFrom(m, 'D' as int)
  }

  /** `find_usb_root()`: scan D..Z in ascending order, stop at the first root
      holding the license file; None when no letter has it. */
  method FindUsbRoot(m: Machine) returns (root: Option<char>)
    ensures root == UsbRoot(m)
    ensures root.Some? ==> IsDriveLetter(root.value) && HasLicense(m, root.value)
    ensures root.Some? ==> forall d: char :: 'D' <= d < root.value ==> !HasLicense(m, d)
    ensures root.None? <==> forall d: char :: IsDriveLetter(d) ==> !HasLicense(m, d)
  {
    var drive := 'D' as int;
    while drive <= 'Z' as int
      invariant 'D' as int <= drive <= 'Z' as int + 1
      invariant FirstLicensedFrom(m, drive) == UsbRoot(m)
      invariant forall d: char :: 'D' as int <= d as int < drive ==> !HasLicense(m, d)
    {
      if HasLicense(m, drive as char) {
        return Some(drive as char);
      }
      drive := drive + 1;
    }
    return None;
  }

  /** What a statement inside the try block of `validate` can raise. */
  datatype Exception = LicenseError(message: string) | OtherException(message: string)

  /** How `validate` ends: it returns, or it raises LicenseError(message). */
  datatype Outcome = Valid | Invalid(message: string)

  /** One `validate` call: its outcome and the entries it appends to the audit log. */
  datatype Run = Run(outcome: Outcome, audit: seq<string>)

  /** The bytes of the license file on the device found. */
  function LicenseToken(m: Machine): Bytes
    requires UsbRoot(m).Some?
  {
    m.drives[UsbRoot(m).value][LICENSE_FILENAME]
  }

  /** `decrypt_license(license_data)`. */
  function Decrypted(m: Machine, rt: Runtime): PyCall<Bytes>
    requires UsbRoot(m).Some?
  {
    Crypto.DecryptLicense(rt.fernet, LicenseToken(m))
  }

  /** `json.loads(decrypted.decode("utf-8"))`. */
  function Parsed(m: Machine, rt: Runtime): PyCall<Json.Value>
    requires UsbRoot(m).Some? && Decrypted(m, rt).Returned?
  {
    rt.loads(Decrypted(m, rt).value)
  }

  /** `verify_signature(payload, public_key_pem)`. */
  function Verdict(m: Machine, rt: Runtime): PyCall<bool>
    requires UsbRoot(m).Some? && Decrypted(m, rt).Returned? && Parsed(m, rt).Returned?
    requires PUBLIC_KEY_FILE in m.appDir
  {
    Crypto.VerifySignature(rt.rsa, Parsed(m, rt).value, m.appDir[PUBLIC_KEY_FILE])
  }

  /** The fingerprint step for claims `d`, on the device root `files`. */
  function FingerprintCheck(files: map<string, Bytes>, rt: Runtime, d: Json.Dict): (r: Option<Exception>)
    ensures r.None? <==> FingerprintBound(files, rt, d)
    ensures r.Some? && r.value.LicenseError? ==> r.value.message == MSG_FINGERPRINT_MISMATCH
    ensures r.Some? && r.value.OtherException? ==>
      FINGERPRINT_FILE in files && rt.readText(files[FINGERPRINT_FILE]) == Raised(r.value.message)
  {
    match Json.Get(d, FINGERPRINT_KEY)
    case None => None
    case Some(expected) =>
      if FINGERPRINT_FILE !in files then Some(LicenseError(MSG_FINGERPRINT_MISMATCH))
      else
        match rt.readText(files[FINGERPRINT_FILE])
        case Raised(e) => Some(OtherException(e))
        case Returned(text) =>
          if PyStr.Strip(text) != expected then Some(LicenseError(MSG_FINGERPRINT_MISMATCH)) else None
  }

  /** The checks of the try block in `validate`, in order; None when every
      one passes, otherwise the exception the first failing one raises. */
  function LicenseChecks(m: Machine, rt: Runtime): (r: Option<Exception>)
    requires UsbRoot(m).Some?
    ensures r.Some? && r.value.LicenseError? ==>
      r.value.message in {MSG_NO_PUBLIC_KEY, MSG_BAD_SIGNATURE, MSG_FINGERPRINT_MISMATCH}
    ensures Decrypted(m, rt).Raised? ==> r == Some(OtherException(Crypto.INVALID_TOKEN_MESSAGE))
  {
    match Decrypted(m, rt)
    case Raised(e) => Some(OtherException(e))
    case Returned(_) =>
      match Parsed(m, rt)
      case Raised(e) => Some(OtherException(e))
      case Returned(payload) =>
        if PUBLIC_KEY_FILE !in m.appDir then Some(LicenseError(MSG_NO_PUBLIC_KEY))
        else
          match Verdict(m, rt)
          case Raised(e) => Some(OtherException(e))
          case Returned(ok) =>
            if !ok then Some(LicenseError(MSG_BAD_SIGNATURE))
            else FingerprintCheck(m.drives[UsbRoot(m).value], rt, payload.members)
  }

  /** `validate()`: the outcome and the audit entries of one call. A
      LicenseError from the try block passes through unlogged; any other
      exception is logged and re-raised as LicenseError(str(e)). */
  function Validation(m: Machine, rt: Runtime): (r: Run)
    ensures 1 <= |r.audit| <= 2 && r.audit[0] == MSG_CHECKING
    ensures r.outcome == Valid <==> r.audit == [MSG_CHECKING, MSG_CONFIRMED]
  {
    if UsbRoot(m).None? then Run(Invalid(MSG_NO_DEVICE), [MSG_CHECKING, MSG_NO_DEVICE])
    else
      match LicenseChecks(m, rt)
      case None => Run(Valid, [MSG_CHECKING, MSG_CONFIRMED])
      case Some(LicenseError(e)) => Run(Invalid(e), [MSG_CHECKING])
      case Some(OtherException(e)) =>
        assert (AUDIT_ERROR_PREFIX + e)[0] != MSG_CONFIRMED[0];
        Run(Invalid(e), [MSG_CHECKING, AUDIT_ERROR_PREFIX + e])
  }

  /** The process-wide audit sink: an append-only list of messages. */
  class AuditLogger {
    var entries: seq<string>

    constructor ()
      ensures entries == []
    {
      entries := [];
    }

    /** `AuditLogger.log(message)`. */
    method Log(message: string)
      modifies this
      ensures entries == old(entries) + [message]
    {
      entries := entries + [message];
    }
  }

  /** Standard output, as far as `enforce` writes to it. */
  class Console {
    var lines: seq<string>

    constructor ()
      ensures lines == []
    {
      lines := [];
    }

    /** `print(line)`. */
    method Print(line: string)
      modifies this
      ensures lines == old(lines) + [line]
    {
      lines := lines + [line];
    }
  }

  /** The body of the try block in `validate`: each failing check raises,
      which here is an early return of the exception. */
  method CheckLicense(m: Machine, rt: Runtime, root: char, log: AuditLogger) returns (raised: Option<Exception>)
    requires UsbRoot(m) == Some(root)
    modifies log
    ensures raised == LicenseChecks(m, rt)
    ensures log.entries == old(log.entries) + (if raised.None? then [MSG_CONFIRMED] else [])
  {
    var licenseData := m.drives[root][LICENSE_FILENAME];
    var decrypted := Crypto.DecryptLicense(rt.fernet, licenseData);
    if decrypted.Raised? {
      return Some(OtherException(decrypted.error));
    }
    var payload := rt.loads(decrypted.value);
    if payload.Raised? {
      return Some(OtherException(payload.error));
    }
    if PUBLIC_KEY_FILE !in m.appDir {
      return Some(LicenseError(MSG_NO_PUBLIC_KEY));
    }
    var publicKeyPem := m.appDir[PUBLIC_KEY_FILE];
    var verified := Crypto.VerifySignature(rt.rsa, payload.value, publicKeyPem);
    if verified.Raised? {
      return Some(OtherException(verified.error));
    }
    if !verified.value {
      return Some(LicenseError(MSG_BAD_SIGNATURE));
    }
    var fingerprint := Json.Get(payload.value.members, FINGERPRINT_KEY);
    if fingerprint.Some? {
      var files := m.drives[root];
      if FINGERPRINT_FILE !in files {
        return Some(LicenseError(MSG_FINGERPRINT_MISMATCH));
      }
      var text := rt.readText(files[FINGERPRINT_FILE]);
      if text.Raised? {
        return Some(OtherException(text.error));
      }
      if PyStr.Strip(text.value) != fingerprint.value {
        return Some(LicenseError(MSG_FINGERPRINT_MISMATCH));
      }
    }
    log.Log(MSG_CONFIRMED);
    return None;
  }

  /** `validate()`. */
  method Validate(m: Machine, rt: Runtime, log: AuditLogger) returns (outcome: Outcome)
    modifies log
    ensures outcome == Validation(m, rt).outcome
    ensures log.entries == old(log.entries) + Validation(m, rt).audit
  {
    log.Log(MSG_CHECKING);
    var usb := FindUsbRoot(m);
    if usb.None? {
      log.Log(MSG_NO_DEVICE);
      return Invalid(MSG_NO_DEVICE);
    }
    var raised := CheckLicense(m, rt, usb.value, log);
    match raised {
      case None =>
        outcome := Valid;
      case Some(LicenseError(e)) =>
        outcome := Invalid(e);
      case Some(OtherException(e)) =>
        log.Log(AUDIT_ERROR_PREFIX + e);
        outcome := Invalid(e);
    }
  }

  /** How the process goes on after `enforce`: past the gate, or `sys.exit(status)`. */
  datatype Termination = Continue | Exit(status: int)

  /** One `enforce` call: how it ends, its audit entries, its printed lines. */
  datatype Enforced = Enforced(termination: Termination, audit: seq<string>, console: seq<string>)

  function Enforcement(m: Machine, rt: Runtime): (r: Enforced)
    ensures r.termination == Continue <==> Validation(m, rt).outcome == Valid
    ensures r.termination.Exit? ==> r.termination.status == 1 && |r.console| == 1
    ensures r.termination == Continue ==> r.console == []
    ensures Validation(m, rt).audit <= r.audit
  {
    var run := Validation(m, rt);
    match run.outcome
    case Valid => Enforced(Continue, run.audit, [])
    case Invalid(e) => Enforced(Exit(1), run.audit + [AUDIT_ERROR_PREFIX + e], [CONSOLE_ERROR_PREFIX + e])
  }

  /** `enforce()`. */
  method Enforce(m: Machine, rt: Runtime, log: AuditLogger, console: Console) returns (termination: Termination)
    modifies log, console
    ensures termination == Enforcement(m, rt).termination
    ensures log.entries == old(log.entries) + Enforcement(m, rt).audit
    ensures console.lines == old(console.lines) + Enforcement(m, rt).console
  {
    var outcome := Validate(m, rt, log);
    if outcome.Invalid? {
      log.Log(AUDIT_ERROR_PREFIX + outcome.message);
      console.Print(CONSOLE_ERROR_PREFIX + outcome.message);
      return Exit(1);
    }
    return Continue;
  }

  /** Every condition of the gate: a device; a token that decrypts and
      parses; a public key file; a signature accepted as stated by
      `Crypto.SignatureAccepted`; and, when the claims carry a fingerprint, a
      fingerprint file on the same root whose stripped text equals it. */
  predicate Accepted(m: Machine, rt: Runtime) {
    && UsbRoot(m).Some?
    && rt.fernet.decrypt(LicenseToken(m)).Some?
    && var parsed := rt.loads(rt.fernet.decrypt(LicenseToken(m)).value);
    && parsed.Returned?
    && PUBLIC_KEY_FILE in m.appDir
    && Crypto.SignatureAccepted(rt.rsa, parsed.value, m.appDir[PUBLIC_KEY_FILE])
    && FingerprintBound(m.drives[UsbRoot(m).value], rt, parsed.value.members)
  }

  /** The fingerprint condition: no fingerprint claimed, or the companion
      file exists, reads, and strips to the claimed value. */
  predicate FingerprintBound(files: map<string, Bytes>, rt: Runtime, claims: Json.Dict) {
    var expected := Json.Get(claims, FINGERPRINT_KEY);
    expected.Some? ==>
      && FINGERPRINT_FILE in files
      && rt.readText(files[FINGERPRINT_FILE]).Returned?
      && PyStr.Strip(rt.readText(files[FINGERPRINT_FILE]).value) == expected.value
  }

  /** `validate` succeeds exactly when every condition holds. */
  lemma ValidIffAccepted(m: Machine, rt: Runtime)
    ensures Validation(m, rt).outcome == Valid <==> Accepted(m, rt)
  {
    if UsbRoot(m).Some? && Decrypted(m, rt).Returned? && Parsed(m, rt).Returned? && PUBLIC_KEY_FILE in m.appDir {
      Crypto.VerifyIffAccepted(rt.rsa, Parsed(m, rt).value, m.appDir[PUBLIC_KEY_FILE]);
    }
  }

  /** The audit trail ends with "Лицензия подтверждена" exactly when
      `validate` succeeds. */
  lemma ConfirmedIffValid(m: Machine, rt: Runtime)
    ensures |Validation(m, rt).audit| > 0
    ensures Validation(m, rt).outcome == Valid
      <==> Validation(m, rt).audit[|Validation(m, rt).audit| - 1] == MSG_CONFIRMED
  {
    var run := Validation(m, rt);
    if run.outcome.Invalid? && |run.audit| == 2 && run.audit[1] != MSG_NO_DEVICE {
      var e := run.outcome.message;
      assert run.audit[1] == AUDIT_ERROR_PREFIX + e;
      assert (AUDIT_ERROR_PREFIX + e)[0] != MSG_CONFIRMED[0];
    }
  }

  /** No drive D..Z holds the license: `validate` fails with
      "USB-ключ не найден" and logs exactly the two entries, whatever the
      application files and the runtime are, so neither the token, the key
      nor a fingerprint file is consulted. */
  lemma NoDeviceRun(m: Machine, rt: Runtime)
    requires forall d: char :: IsDriveLetter(d) ==> !HasLicense(m, d)
    ensures Validation(m, rt) == Run(Invalid(MSG_NO_DEVICE), [MSG_CHECKING, MSG_NO_DEVICE])
  {
  }

  /** A token that does not decrypt fails the run with the empty message of
      InvalidToken, logged, before the JSON parser, the key or the
      fingerprint are looked at. */
  lemma DecryptFailureDecides(m: Machine, rt: Runtime)
    requires UsbRoot(m).Some? && Decrypted(m, rt).Raised?
    ensures Validation(m, rt)
      == Run(Invalid(Crypto.INVALID_TOKEN_MESSAGE), [MSG_CHECKING, AUDIT_ERROR_PREFIX + Crypto.INVALID_TOKEN_MESSAGE])
  {
  }

  /** A plaintext that does not decode or parse: its error, logged, decides. */
  lemma ParseFailureDecides(m: Machine, rt: Runtime, e: string)
    requires UsbRoot(m).Some? && Decrypted(m, rt).Returned? && Parsed(m, rt) == Raised(e)
    ensures Validation(m, rt) == Run(Invalid(e), [MSG_CHECKING, AUDIT_ERROR_PREFIX + e])
  {
  }

  /** A parsed token without the public key file fails unlogged inside the
      try block, before any signature work. */
  lemma MissingKeyDecides(m: Machine, rt: Runtime)
    requires UsbRoot(m).Some? && Decrypted(m, rt).Returned? && Parsed(m, rt).Returned?
    requires PUBLIC_KEY_FILE !in m.appDir
    ensures Validation(m, rt) == Run(Invalid(MSG_NO_PUBLIC_KEY), [MSG_CHECKING])
  {
  }

  /** A rejected signature fails with "Неверная подпись лицензии" before the
      fingerprint is looked at. */
  lemma SignatureRejectionDecides(m: Machine, rt: Runtime)
    requires UsbRoot(m).Some? && Decrypted(m, rt).Returned? && Parsed(m, rt).Returned?
    requires PUBLIC_KEY_FILE in m.appDir && Verdict(m, rt) == Returned(false)
    ensures Validation(m, rt) == Run(Invalid(MSG_BAD_SIGNATURE), [MSG_CHECKING])
  {
  }

  /** A key file that does not load, once the signature field is non-empty
      hex, is an error of its own: logged and re-raised with the loader's
      message, not reported as a rejected signature. */
  lemma MalformedKeyIsError(m: Machine, rt: Runtime, d: Json.Dict, h: string, signature: Bytes, e: string)
    requires UsbRoot(m).Some? && Decrypted(m, rt).Returned? && Parsed(m, rt) == Returned(Json.Object(d))
    requires Json.Get(d, Crypto.SIGNATURE_KEY) == Some(h) && h != "" && FromHex(h) == Some(signature)
    requires PUBLIC_KEY_FILE in m.appDir && rt.rsa.loadPem(m.appDir[PUBLIC_KEY_FILE]) == Raised(e)
    ensures Validation(m, rt) == Run(Invalid(e), [MSG_CHECKING, AUDIT_ERROR_PREFIX + e])
  {
    Crypto.VerdictIsOracle(rt.rsa, d, m.appDir[PUBLIC_KEY_FILE], h, signature);
  }

  /** After a valid signature, claims without a fingerprint succeed whatever
      the device's fingerprint file holds, or whether it exists at all. */
  lemma FingerprintNotRequired(m: Machine, rt: Runtime)
    requires UsbRoot(m).Some? && Decrypted(m, rt).Returned? && Parsed(m, rt).Returned?
    requires PUBLIC_KEY_FILE in m.appDir && Verdict(m, rt) == Returned(true)
    requires Json.Get(Parsed(m, rt).value.members, FINGERPRINT_KEY).None?
    ensures Validation(m, rt) == Run(Valid, [MSG_CHECKING, MSG_CONFIRMED])
  {
  }

  /** After a valid signature, a claimed fingerprint is the last check: the
      run succeeds exactly when the file on the same root exists, reads and
      strips to the claim; a missing or different file fails with
      "Отпечаток USB не совпадает". */
  lemma FingerprintDecides(m: Machine, rt: Runtime, expected: string)
    requires UsbRoot(m).Some? && Decrypted(m, rt).Returned? && Parsed(m, rt).Returned?
    requires PUBLIC_KEY_FILE in m.appDir && Verdict(m, rt) == Returned(true)
    requires Json.Get(Parsed(m, rt).value.members, FINGERPRINT_KEY) == Some(expected)
    ensures var files := m.drives[UsbRoot(m).value];
      (Validation(m, rt).outcome == Valid
       <==> (FINGERPRINT_FILE in files && rt.readText(files[FINGERPRINT_FILE]).Returned?
             && PyStr.Strip(rt.readText(files[FINGERPRINT_FILE]).value) == expected))
    ensures var files := m.drives[UsbRoot(m).value];
      (FINGERPRINT_FILE !in files
       || (rt.readText(files[FINGERPRINT_FILE]).Returned?
           && PyStr.Strip(rt.readText(files[FINGERPRINT_FILE]).value) != expected))
        ==> Validation(m, rt) == Run(Invalid(MSG_FINGERPRINT_MISMATCH), [MSG_CHECKING])
  {
  }

  /** The fingerprint file may hold the claimed (trimmed) value with any
      whitespace around it, a trailing newline for one. */
  lemma PaddedFingerprintAccepted(m: Machine, rt: Runtime, expected: string, before: string, after: string)
    requires UsbRoot(m).Some? && Decrypted(m, rt).Returned? && Parsed(m, rt).Returned?
    requires PUBLIC_KEY_FILE in m.appDir && Verdict(m, rt) == Returned(true)
    requires Json.Get(Parsed(m, rt).value.members, FINGERPRINT_KEY) == Some(expected)
    requires PyStr.Trimmed(expected) && PyStr.AllSpace(before) && PyStr.AllSpace(after)
    requires FINGERPRINT_FILE in m.drives[UsbRoot(m).value]
    requires rt.readText(m.drives[UsbRoot(m).value][FINGERPRINT_FILE]) == Returned(before + expected + after)
    ensures Validation(m, rt) == Run(Valid, [MSG_CHECKING, MSG_CONFIRMED])
  {
    PyStr.StripPadded(before, expected, after);
  }

  /** `validate` raises only LicenseError, carrying the message of the
      exception the try block raised; a LicenseError passes through without
      an audit entry of its own, anything else is logged first. */
  lemma ExceptionsNormalised(m: Machine, rt: Runtime)
    requires UsbRoot(m).Some? && LicenseChecks(m, rt).Some?
    ensures Validation(m, rt).outcome == Invalid(LicenseChecks(m, rt).value.message)
    ensures LicenseChecks(m, rt).value.LicenseError? ==> Validation(m, rt).audit == [MSG_CHECKING]
    ensures LicenseChecks(m, rt).value.OtherException? ==>
      Validation(m, rt).audit == [MSG_CHECKING, AUDIT_ERROR_PREFIX + LicenseChecks(m, rt).value.message]
  {
  }

  /** `enforce` lets the process go on exactly when `validate` succeeds;
      otherwise it logs and prints the reason and exits with status 1. */
  lemma EnforceGate(m: Machine, rt: Runtime)
    ensures Enforcement(m, rt).termination == Continue <==> Accepted(m, rt)
    ensures Enforcement(m, rt).termination.Exit? ==> Enforcement(m, rt).termination.status == 1
    ensures Validation(m, rt).outcome.Invalid? ==>
      var e := Validation(m, rt).outcome.message;
      Enforcement(m, rt) == Enforced(Exit(1), Validation(m, rt).audit + [AUDIT_ERROR_PREFIX + e], [CONSOLE_ERROR_PREFIX + e])
    ensures Validation(m, rt).outcome == Valid ==>
      Enforcement(m, rt) == Enforced(Continue, Validation(m, rt).audit, [])
  {
    ValidIffAccepted(m, rt);
  }

  /** Without a device, `enforce` exits with status 1 after three audit
      entries and one printed line. */
  lemma NoDeviceEnforced(m: Machine, rt: Runtime)
    requires forall d: char :: IsDriveLetter(d) ==> !HasLicense(m, d)
    ensures Enforcement(m, rt) == Enforced(Exit(1),
      [MSG_CHECKING, MSG_NO_DEVICE, AUDIT_ERROR_PREFIX + MSG_NO_DEVICE], [CONSOLE_ERROR_PREFIX + MSG_NO_DEVICE])
  {
    NoDeviceRun(m, rt);
  }

  /** `json.loads` reads back what `json.dumps` wrote, for any real dict. */
  ghost predicate LoadsInvertsDumps(rt: Runtime) {
    forall d: Json.Dict :: Json.UniqueKeys(d) ==> rt.loads(Utf8Encode(Json.Dumps(d))) == Returned(Json.Object(d))
  }

  /** `json.loads` returns real dicts: an object never holds a key twice
      (the last duplicate wins in Python, so the parsed dict has distinct keys). */
  ghost predicate LoadsGivesDistinctKeys(rt: Runtime) {
    forall t :: rt.loads(t).Returned? && rt.loads(t).value.Object? ==> Json.UniqueKeys(rt.loads(t).value.members)
  }

  /** For a parser that returns real dicts, the verdict on the parsed claims
      is the verdict on any dict with the same key-to-value mapping: the order
      of the keys in the license text does not matter. */
  lemma VerdictIgnoresKeyOrder(m: Machine, rt: Runtime, d: Json.Dict)
    requires LoadsGivesDistinctKeys(rt)
    requires UsbRoot(m).Some? && Decrypted(m, rt).Returned? && Parsed(m, rt).Returned?
    requires PUBLIC_KEY_FILE in m.appDir && Parsed(m, rt).value.Object?
    requires Json.UniqueKeys(d) && Json.ToMap(d) == Json.ToMap(Parsed(m, rt).value.members)
    ensures Verdict(m, rt) == Crypto.VerifySignature(rt.rsa, Json.Object(d), m.appDir[PUBLIC_KEY_FILE])
  {
    assert Json.UniqueKeys(Parsed(m, rt).value.members);
    Crypto.VerdictDependsOnlyOnMap(rt.rsa, Parsed(m, rt).value.members, d, m.appDir[PUBLIC_KEY_FILE]);
  }

  /** The issuing path end to end: claims without `signature` are signed,
      serialised, encrypted and written to the first licensed drive; with
      the public key that loads to the signer's key, a sound codec and
      parser, and a fingerprint file that strips to the claimed fingerprint,
      `validate` succeeds. */
  lemma IssuedLicenseAccepted(m: Machine, rt: Runtime, claims: Json.Dict, sign: Bytes -> Bytes,
                              nonce: Bytes, key: Crypto.PublicKey, expected: string, text: string)
    requires Crypto.RoundTrips(rt.fernet) && LoadsInvertsDumps(rt)
    requires Json.UniqueKeys(claims) && Crypto.SIGNATURE_KEY !in Json.Keys(claims)
    requires |sign(Crypto.CanonicalBytes(claims))| > 0
    requires UsbRoot(m).Some?
    requires LicenseToken(m)
      == Crypto.EncryptLicense(rt.fernet, Utf8Encode(Json.Dumps(Crypto.SignPayload(claims, sign))), nonce)
    requires PUBLIC_KEY_FILE in m.appDir && rt.rsa.loadPem(m.appDir[PUBLIC_KEY_FILE]) == Returned(key)
    requires rt.rsa.verify(key, sign(Crypto.CanonicalBytes(claims)), Crypto.CanonicalBytes(claims)) == Crypto.Verified
    requires Json.Get(claims, FINGERPRINT_KEY) == Some(expected)
    requires FINGERPRINT_FILE in m.drives[UsbRoot(m).value]
    requires rt.readText(m.drives[UsbRoot(m).value][FINGERPRINT_FILE]) == Returned(text)
    requires PyStr.Strip(text) == expected
    ensures Validation(m, rt) == Run(Valid, [MSG_CHECKING, MSG_CONFIRMED])
  {
    var signed := Crypto.SignPayload(claims, sign);
    Json.SetFreshKeyUnique(claims, Crypto.SIGNATURE_KEY, Hex(sign(Crypto.CanonicalBytes(claims))));
    Crypto.CodecRoundTrip(rt.fernet, Utf8Encode(Json.Dumps(signed)), nonce);
    assert Parsed(m, rt) == Returned(Json.Object(signed));
    Crypto.IssuedLicenseVerdict(rt.rsa, claims, sign, m.appDir[PUBLIC_KEY_FILE], key);
    Json.SetGet(claims, Crypto.SIGNATURE_KEY, Hex(sign(Crypto.CanonicalBytes(claims))), FINGERPRINT_KEY);
  }
}
