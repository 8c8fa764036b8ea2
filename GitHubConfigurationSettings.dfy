/**
 * The GitHub settings as the host's settings screen sees them: five named
 * values, each with an "is set" flag, projected from the configuration
 * store. The store's getters are modelled as one snapshot, so reading the
 * same getter twice gives the same value.
 */
module GitHubConfigurationSettings {
  import opened Wrappers
  import opened Text
  import ConfigurationStore

  /** A `SensitiveString`, whose wrapped value may itself be null. */
  datatype SensitiveString = SensitiveString(value: Option<string>)

  /** What the store's getters return at the time of the call. */
  datatype Snapshot = Snapshot(
    isEnabled: bool,
    baseUrl: Option<string>,
    username: Option<string>,
    password: Option<SensitiveString>,
    releaseNotePrefix: Option<string>)

  /** The payload of a `ConfigurationValue<T>` for the three `T`s used. */
  datatype Payload =
    | Flag(flag: bool)
    | Text(text: Option<string>)
    | Secret(secret: Option<SensitiveString>)

  /** One `ConfigurationValue<T>`: key, value, "is set", description. */
  datatype ConfigurationValue = ConfigurationValue(
    key: string, payload: Payload, isSet: bool, description: string)

  const ConfigurationSetName: string := "GitHub Issue Tracker"
  const Description: string := "GitHub Issue Tracker settings"

  /** The settings set is identified by the store's singleton document id. */
  const Id: string := ConfigurationStore.SingletonId

  const IsEnabledKey: string := "Octopus.IssueTracker.GitHubIssueTracker"
  const BaseUrlKey: string := "Octopus.IssueTracker.GitHubBaseUrl"
  const UsernameKey: string := "Octopus.IssueTracker.GitHubUsername"
  const PasswordKey: string := "Octopus.IssueTracker.GitHubPassword"
  const ReleaseNotePrefixKey: string := "Octopus.IssueTracker.GitHubReleaseNotePrefix"

  /** The keys in the order the values are produced. */
  const Keys: seq<string> := [IsEnabledKey, BaseUrlKey, UsernameKey, PasswordKey, ReleaseNotePrefixKey]

  /** "Is set" for a plain or wrapped string: the tracker is enabled and the
      string is not `IsNullOrWhiteSpace`. */
  predicate IsSet(isEnabled: bool, s: Option<string>) {
    isEnabled && !IsNullOrWhiteSpace(s)
  }

  /** The inner string of a possibly-null `SensitiveString` (`p?.Value`). */
  function Inner(p: Option<SensitiveString>): Option<string> {
    match p
    case None => None
    case Some(w) => w.value
  }

  /** The five values, keys in the fixed order, each value straight from the
      snapshot. */
  function GetConfigurationValues(s: Snapshot): (values: seq<ConfigurationValue>)
    ensures |values| == |Keys|
    ensures forall i :: 0 <= i < |values| ==> values[i].key == Keys[i]
    ensures !s.isEnabled ==> forall i :: 0 <= i < |values| ==> !values[i].isSet
  {
    [ ConfigurationValue(IsEnabledKey, Flag(s.isEnabled), s.isEnabled, "Is Enabled"),
      ConfigurationValue(BaseUrlKey, Text(s.baseUrl), IsSet(s.isEnabled, s.baseUrl), "GitHub Base Url"),
      ConfigurationValue(UsernameKey, Text(s.username), IsSet(s.isEnabled, s.username), "GitHub Username"),
      ConfigurationValue(PasswordKey, Secret(s.password), IsSet(s.isEnabled, Inner(s.password)), "GitHub Password"),
      ConfigurationValue(ReleaseNotePrefixKey, Text(s.releaseNotePrefix), IsSet(s.isEnabled, s.releaseNotePrefix),
                         "GitHub Release Note Prefix") ]
  }

  /** The first value with the given key, as a consumer of the settings
      looks one up. */
  function Find(values: seq<ConfigurationValue>, key: string): (r: Option<ConfigurationValue>)
    ensures r.Some? ==> r.value.key == key && r.value in values
    ensures r.None? <==> forall i :: 0 <= i < |values| ==> values[i].key != key
    ensures r.Some? ==> exists i :: 0 <= i < |values| && values[i] == r.value
                         && forall j :: 0 <= j < i ==> values[j].key != key
  {
    if values == [] then None
    else if values[0].key == key then Some(values[0])
    else
      var r := Find(values[1..], key);
      assert forall i :: 1 <= i < |values| ==> values[i] == values[1..][i - 1];
      if r.Some? then
        ghost var i :| 0 <= i < |values[1..]| && values[1..][i] == r.value
                       && forall j :: 0 <= j < i ==> values[1..][j].key != key;
        assert values[i + 1] == r.value;
        r
      else r
  }

  /** A value whose key no earlier value has is the one found. */
  lemma FindFirst(values: seq<ConfigurationValue>, i: nat)
    requires i < |values|
    requires forall j :: 0 <= j < i ==> values[j].key != values[i].key
    ensures Find(values, values[i].key) == Some(values[i])
  {
  }

  /** The five keys are pairwise distinct. */
  lemma KeysDistinct()
    ensures forall i, j :: 0 <= i < j < |Keys| ==> Keys[i] != Keys[j]
  {
  }

  /** Each of the five values is the one found under its key. */
  lemma FoundUnderKey(s: Snapshot, i: nat)
    requires i < |Keys|
    ensures Find(GetConfigurationValues(s), Keys[i]) == Some(GetConfigurationValues(s)[i])
  {
    KeysDistinct();
    FindFirst(GetConfigurationValues(s), i);
  }

  /** The enabled-flag value carries the flag both as value and as
      "is set". */
  lemma EnabledEntry(s: Snapshot)
    ensures Find(GetConfigurationValues(s), IsEnabledKey)
            == Some(ConfigurationValue(IsEnabledKey, Flag(s.isEnabled), s.isEnabled, "Is Enabled"))
  {
  }

  /** Base URL, username and release-note prefix are found under their keys,
      unchanged, and are "set" exactly when the tracker is enabled and the
      string holds a visible character. */
  lemma TextEntries(s: Snapshot)
    ensures var values := GetConfigurationValues(s);
      && Find(values, BaseUrlKey).Some?
      && Find(values, BaseUrlKey).value.payload == Text(s.baseUrl)
      && (Find(values, BaseUrlKey).value.isSet
          <==> s.isEnabled && s.baseUrl.Some? && HasVisibleChar(s.baseUrl.value))
      && Find(values, UsernameKey).Some?
      && Find(values, UsernameKey).value.payload == Text(s.username)
      && (Find(values, UsernameKey).value.isSet
          <==> s.isEnabled && s.username.Some? && HasVisibleChar(s.username.value))
      && Find(values, ReleaseNotePrefixKey).Some?
      && Find(values, ReleaseNotePrefixKey).value.payload == Text(s.releaseNotePrefix)
      && (Find(values, ReleaseNotePrefixKey).value.isSet
          <==> s.isEnabled && s.releaseNotePrefix.Some? && HasVisibleChar(s.releaseNotePrefix.value))
  {
    FoundUnderKey(s, 1);
    FoundUnderKey(s, 2);
    FoundUnderKey(s, 4);
    NotBlankIffVisible(s.baseUrl);
    NotBlankIffVisible(s.username);
    NotBlankIffVisible(s.releaseNotePrefix);
  }

  /** The password is found under its key, unchanged, and is "set" exactly
      when the tracker is enabled, the wrapper is not null and its inner
      string holds a visible character. */
  lemma PasswordEntry(s: Snapshot)
    ensures var values := GetConfigurationValues(s);
      && Find(values, PasswordKey).Some?
      && Find(values, PasswordKey).value.payload == Secret(s.password)
      && (Find(values, PasswordKey).value.isSet
          <==> s.isEnabled && s.password.Some? && s.password.value.value.Some?
               && HasVisibleChar(s.password.value.value.value))
  {
    FoundUnderKey(s, 3);
    NotBlankIffVisible(Inner(s.password));
  }
}
