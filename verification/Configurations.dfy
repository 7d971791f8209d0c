/** The validated configuration that the sanitizer and the writer share. */
module Configurations {
  import opened Wrappers
  import opened Keys

  datatype Configuration = Configuration(
    maxFileBytes: nat,
    maxStringBytes: nat,
    maxKeyBytes: nat,
    maxRecordBytes: nat,
    maxArrayItems: nat,
    maxPayloadNodes: nat,
    maxDepth: nat,
    sensitiveKeySet: set<string>,
    strictSensitiveKeys: bool,
    sensitive: string -> bool,
    retentionDays: nat,
    digest: string -> string
  )

  /** What the options leave to be validated. Modes are unsigned in the source. */
  datatype Settings = Settings(
    logDirectory: string,
    maxFileBytes: int,
    maxStringBytes: int,
    maxKeyBytes: int,
    maxRecordBytes: int,
    maxArrayItems: int,
    maxPayloadNodes: int,
    maxDepth: int,
    sensitiveKeys: seq<string>,
    strictSensitiveKeys: bool,
    retentionDays: int,
    directoryMode: nat,
    fileMode: nat
  )

  /** In the order in which the constructor looks for them. */
  datatype ConfigurationError =
    | EmptyLogDirectory | BadFileBytes | BadStringBytes | BadKeyBytes | BadRecordBytes | BadArrayItems
    | BadPayloadNodes | BadDepth | BadRetentionDays | BadDirectoryMode | BadFileMode

  const MAX_MODE := 0xFFF

  const DEFAULT_MAX_RECORD_BYTES := 256 * 1024

  const DEFAULT_SENSITIVE_KEYS := [
    "password", "passwd", "pwd", "token", "access_token", "refresh_token",
    "authorization", "proxy_authorization", "cookie", "set_cookie", "api_key",
    "x_api_key", "secret", "client_secret", "private_key", "credentials",
    "signature", "session_id", "csrf", "csrf_token", "access_key", "secret_key",
    "auth"
  ]

  predicate Faulty(settings: Settings, e: ConfigurationError) {
    match e
    case EmptyLogDirectory => settings.logDirectory == ""
    case BadFileBytes => settings.maxFileBytes <= 0
    case BadStringBytes => settings.maxStringBytes <= 0
    case BadKeyBytes => settings.maxKeyBytes < MIN_MAX_KEY_BYTES
    case BadRecordBytes => settings.maxRecordBytes <= 0
    case BadArrayItems => settings.maxArrayItems <= 0
    case BadPayloadNodes => settings.maxPayloadNodes <= 0
    case BadDepth => settings.maxDepth <= 0
    case BadRetentionDays => settings.retentionDays < 0
    case BadDirectoryMode => settings.directoryMode > MAX_MODE
    case BadFileMode => settings.fileMode > MAX_MODE
  }

  const CHECKS: seq<ConfigurationError> := [
    EmptyLogDirectory, BadFileBytes, BadStringBytes, BadKeyBytes, BadRecordBytes, BadArrayItems,
    BadPayloadNodes, BadDepth, BadRetentionDays, BadDirectoryMode, BadFileMode
  ]

  lemma EveryErrorIsLookedFor(e: ConfigurationError)
    ensures e in CHECKS
  {
    assert CHECKS[0].EmptyLogDirectory? && CHECKS[1].BadFileBytes? && CHECKS[2].BadStringBytes? && CHECKS[3].BadKeyBytes?;
    assert CHECKS[4].BadRecordBytes? && CHECKS[5].BadArrayItems? && CHECKS[6].BadPayloadNodes? && CHECKS[7].BadDepth?;
    assert CHECKS[8].BadRetentionDays? && CHECKS[9].BadDirectoryMode? && CHECKS[10].BadFileMode?;
  }

  /** The first fault, if there is any. */
  method Validate(settings: Settings) returns (fault: Option<ConfigurationError>)
    ensures fault.None? <==> forall e :: !Faulty(settings, e)
    ensures fault.Some? ==> exists i :: 0 <= i < |CHECKS| && CHECKS[i] == fault.value && Faulty(settings, CHECKS[i])
                                        && forall j :: 0 <= j < i ==> !Faulty(settings, CHECKS[j])
  {
    for i := 0 to |CHECKS|
      invariant forall j :: 0 <= j < i ==> !Faulty(settings, CHECKS[j])
    {
      if Faulty(settings, CHECKS[i]) {
        return Some(CHECKS[i]);
      }
    }
    forall e ensures !Faulty(settings, e) {
      EveryErrorIsLookedFor(e);
    }
    return None;
  }

  /** The folded forms of the given keys, without the ones that fold to nothing. */
  function CanonicalSet(keys: seq<string>): set<string> {
    set key | key in keys && Canonical(key) != "" :: Canonical(key)
  }

  function Min(a: int, b: int): int {
    if a > b then b else a
  }

  /** The key folds like one of these, and not to nothing. */
  ghost predicate SpellsOneOf(keys: seq<string>, key: string) {
    Canonical(key) != "" && exists k :: k in keys && Canonical(k) == Canonical(key)
  }

  /**
   Exactly the secret keys of a configuration: the spellings of its keys, the default ones included,
   and, unless matching is strict, whatever holds a fragment when folded.
   */
  lemma SecretsAreSpelledOrHoldFragments(keys: seq<string>, strict: bool)
    ensures forall key :: IsSensitiveKey(CanonicalSet(keys), strict, key)
                          <==> SpellsOneOf(keys, key) || (!strict && HoldsFragment(Canonical(key)))
  {
    hide IsSensitiveKey, HoldsFragment, Canonical;
    forall key ensures IsSensitiveKey(CanonicalSet(keys), strict, key)
                       <==> SpellsOneOf(keys, key) || (!strict && HoldsFragment(Canonical(key)))
    {
      SecretExactly(CanonicalSet(keys), strict, key);
    }
  }

  method NewConfiguration(settings: Settings, digest: string -> string)
    returns (r: Result<Configuration, ConfigurationError>)
    ensures r.Success? <==> forall e :: !Faulty(settings, e)
    ensures r.Success? <==>
              && settings.logDirectory != "" && settings.retentionDays >= 0
              && settings.maxFileBytes > 0 && settings.maxStringBytes > 0 && settings.maxRecordBytes > 0
              && settings.maxKeyBytes >= 32 && settings.maxArrayItems > 0
              && settings.maxPayloadNodes > 0 && settings.maxDepth > 0
              && settings.directoryMode <= 4095 && settings.fileMode <= 4095
    ensures r.Failure? ==> Faulty(settings, r.error)
    ensures r.Success? ==>
              var c := r.value;
              && 0 < c.maxStringBytes <= c.maxRecordBytes <= c.maxFileBytes == settings.maxFileBytes
              && c.maxRecordBytes == Min(settings.maxRecordBytes, settings.maxFileBytes)
              && c.maxStringBytes == Min(settings.maxStringBytes, c.maxRecordBytes)
              && c.maxKeyBytes == settings.maxKeyBytes && c.maxArrayItems == settings.maxArrayItems
              && c.maxPayloadNodes == settings.maxPayloadNodes && c.maxDepth == settings.maxDepth
              && c.retentionDays == settings.retentionDays && c.digest == digest
              && c.sensitiveKeySet == CanonicalSet(DEFAULT_SENSITIVE_KEYS + settings.sensitiveKeys)
              && c.strictSensitiveKeys == settings.strictSensitiveKeys
              && (forall key :: c.sensitive(key) <==> IsSensitiveKey(c.sensitiveKeySet, c.strictSensitiveKeys, key))
              && forall key :: c.sensitive(key) <==>
                   || SpellsOneOf(DEFAULT_SENSITIVE_KEYS + settings.sensitiveKeys, key)
                   || (!settings.strictSensitiveKeys && HoldsFragment(Canonical(key)))
  {
    hide IsSensitiveKey, SpellsOneOf, HoldsFragment, CanonicalSet, Canonical;
    var fault := Validate(settings);
    if fault.Some? {
      return Failure(fault.value);
    }
    assert !Faulty(settings, EmptyLogDirectory) && !Faulty(settings, BadDirectoryMode) && !Faulty(settings, BadFileMode);
    assert !Faulty(settings, BadFileBytes) && !Faulty(settings, BadStringBytes) && !Faulty(settings, BadKeyBytes);
    assert !Faulty(settings, BadRecordBytes) && !Faulty(settings, BadArrayItems);
    assert !Faulty(settings, BadPayloadNodes) && !Faulty(settings, BadDepth) && !Faulty(settings, BadRetentionDays);
    var maxRecordBytes, maxStringBytes := settings.maxRecordBytes, settings.maxStringBytes;
    if maxRecordBytes > settings.maxFileBytes {
      maxRecordBytes := settings.maxFileBytes;
    }
    if maxStringBytes > maxRecordBytes {
      maxStringBytes := maxRecordBytes;
    }
    var keySet := FoldKeys(DEFAULT_SENSITIVE_KEYS + settings.sensitiveKeys);
    SecretsAreSpelledOrHoldFragments(DEFAULT_SENSITIVE_KEYS + settings.sensitiveKeys, settings.strictSensitiveKeys);
    return Success(Configuration(
      settings.maxFileBytes, maxStringBytes, settings.maxKeyBytes, maxRecordBytes, settings.maxArrayItems,
      settings.maxPayloadNodes, settings.maxDepth, keySet, settings.strictSensitiveKeys,
      key => IsSensitiveKey(keySet, settings.strictSensitiveKeys, key), settings.retentionDays, digest));
  }

  method FoldKeys(keys: seq<string>) returns (keySet: set<string>)
    ensures keySet == CanonicalSet(keys)
  {
    keySet := {};
    for i := 0 to |keys|
      invariant keySet == CanonicalSet(keys[..i])
    {
      assert keys[..i + 1] == keys[..i] + [keys[i]];
      var canonical := CanonicalizeKey(keys[i]);
      if canonical != "" {
        keySet := keySet + {canonical};
      }
    }
    assert keys[..|keys|] == keys;
  }

  /**
   Every spelling of a configured key is a secret, in strict mode too: keys that fold alike are
   redacted alike, and strict mode redacts nothing but spellings of configured keys.
   */
  lemma SpellingsAreSecrets(keys: seq<string>, strict: bool, key: string)
    ensures (exists k :: k in keys && Canonical(k) == Canonical(key) && Canonical(key) != "")
            ==> IsSensitiveKey(CanonicalSet(keys), strict, key)
    ensures strict && IsSensitiveKey(CanonicalSet(keys), strict, key)
            ==> exists k :: k in keys && Canonical(k) == Canonical(key)
    ensures IsSensitiveKey(CanonicalSet(keys), true, key) ==> IsSensitiveKey(CanonicalSet(keys), false, key)
  {
    if strict && IsSensitiveKey(CanonicalSet(keys), strict, key) {
      assert Canonical(key) in CanonicalSet(keys);
    }
  }
}
