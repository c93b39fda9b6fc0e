/**
 * The credential record and its assembly from a key/value mapping
 * (`CREDENTIAL_KEYS`, `Credentials`, `Credentials.from_mapping` in cli.py).
 */
module Credential {
  import opened Results
  import PyStr

  /** The five required keys, in the order errors list them. */
  const CredentialKeys: seq<string> := [
    "X_BEARER_TOKEN",
    "X_CONSUMER_KEY",
    "X_CONSUMER_SECRET",
    "X_ACCESS_TOKEN",
    "X_ACCESS_SECRET"
  ]

  const MissingPrefix: string := "Missing X credentials: "
  const KeySeparator: string := ", "

  datatype Credentials = Credentials(
    bearerToken: string,
    consumerKey: string,
    consumerSecret: string,
    accessToken: string,
    accessSecret: string)
  {
    /** What `from_mapping` guarantees of every record it builds. */
    predicate Complete() {
      bearerToken != "" && consumerKey != "" && consumerSecret != ""
      && accessToken != "" && accessSecret != ""
    }
  }

  /** `mapping.get(key)` is truthy: the key is present and its value is not "". */
  predicate Provided(mapping: map<string, string>, key: string) {
    key in mapping && mapping[key] != ""
  }

  /** No key occurs twice. */
  ghost predicate Distinct(keys: seq<string>) {
    forall i, j :: 0 <= i < j < |keys| ==> keys[i] != keys[j]
  }

  /** `xs` can be obtained from `ys` by deleting elements, so it keeps their order. */
  ghost predicate IsSubsequence(xs: seq<string>, ys: seq<string>)
    decreases |ys|
  {
    if xs == [] then true
    else if ys == [] then false
    else if xs[0] == ys[0] then IsSubsequence(xs[1..], ys[1..])
    else IsSubsequence(xs, ys[1..])
  }

  /** `[key for key in keys if not mapping.get(key)]` */
  function MissingKeys(keys: seq<string>, mapping: map<string, string>): (missing: seq<string>)
    ensures forall k :: k in missing <==> k in keys && !Provided(mapping, k)
    ensures IsSubsequence(missing, keys)
  {
    if keys == [] then []
    else if Provided(mapping, keys[0]) then MissingKeys(keys[1..], mapping)
    else [keys[0]] + MissingKeys(keys[1..], mapping)
  }

  lemma {:induction false} SubsequenceOfDistinct(xs: seq<string>, ys: seq<string>)
    requires IsSubsequence(xs, ys) && Distinct(ys)
    ensures Distinct(xs)
    ensures forall x :: x in xs ==> x in ys
    decreases |ys|
  {
    if xs != [] && ys != [] {
      if xs[0] == ys[0] {
        SubsequenceOfDistinct(xs[1..], ys[1..]);
        assert forall k :: 0 < k < |xs| ==> xs[k] == xs[1..][k - 1] && xs[k] in ys[1..];
        assert ys[0] !in ys[1..];
        assert forall x :: x in ys[1..] ==> x in ys;
      } else {
        SubsequenceOfDistinct(xs, ys[1..]);
      }
    }
  }

  /**
   * The missing keys are listed in the order of the key list, each once:
   * they are a subsequence of the keys without repetition.
   */
  lemma MissingKeysInOrder(keys: seq<string>, mapping: map<string, string>)
    requires Distinct(keys)
    ensures IsSubsequence(MissingKeys(keys, mapping), keys)
    ensures Distinct(MissingKeys(keys, mapping))
  {
    SubsequenceOfDistinct(MissingKeys(keys, mapping), keys);
  }

  /** `Credentials.from_mapping(mapping)`; `Err` carries the `ValueError` message. */
  function FromMapping(mapping: map<string, string>): (r: Result<Credentials, string>)
    ensures r.Err? <==> exists k :: k in CredentialKeys && !Provided(mapping, k)
    ensures r.Ok? ==> r.value.Complete()
  {
    var missing := MissingKeys(CredentialKeys, mapping);
    if |missing| > 0 then
      assert missing[0] in missing;
      Err(MissingPrefix + PyStr.Join(missing, KeySeparator))
    else
      assert Provided(mapping, CredentialKeys[0]) && Provided(mapping, CredentialKeys[1])
        && Provided(mapping, CredentialKeys[2]) && Provided(mapping, CredentialKeys[3])
        && Provided(mapping, CredentialKeys[4]);
      Ok(Credentials(
        bearerToken := mapping["X_BEARER_TOKEN"],
        consumerKey := mapping["X_CONSUMER_KEY"],
        consumerSecret := mapping["X_CONSUMER_SECRET"],
        accessToken := mapping["X_ACCESS_TOKEN"],
        accessSecret := mapping["X_ACCESS_SECRET"]))
  }

  /** The mapping a record was read from, restricted to the five keys. */
  function ToMapping(c: Credentials): (m: map<string, string>)
    ensures m.Keys == set k | k in CredentialKeys
  {
    map[
      "X_BEARER_TOKEN" := c.bearerToken,
      "X_CONSUMER_KEY" := c.consumerKey,
      "X_CONSUMER_SECRET" := c.consumerSecret,
      "X_ACCESS_TOKEN" := c.accessToken,
      "X_ACCESS_SECRET" := c.accessSecret]
  }

  /** On success every field is the mapping's value for its key. */
  lemma FromMappingFields(mapping: map<string, string>)
    requires FromMapping(mapping).Ok?
    ensures forall k :: k in CredentialKeys ==> k in mapping && ToMapping(FromMapping(mapping).value)[k] == mapping[k]
  {
  }

  /** Every complete record is what `from_mapping` builds from its own mapping. */
  lemma FromMappingRoundTrip(c: Credentials)
    requires c.Complete()
    ensures FromMapping(ToMapping(c)) == Ok(c)
  {
  }

  /** Every key is a non-empty name of capital letters and underscores. */
  predicate IsKeyName(k: string) {
    k != [] && forall i :: 0 <= i < |k| ==> 'A' <= k[i] <= 'Z' || k[i] == '_'
  }

  lemma KeysAreNames()
    ensures forall k :: k in CredentialKeys ==> IsKeyName(k)
  {
  }

  /** No credential key contains the first character of the separator. */
  lemma KeysHaveNoComma()
    ensures forall k :: k in CredentialKeys ==> ',' !in k
  {
    KeysAreNames();
  }

  lemma CredentialKeysDistinct()
    ensures Distinct(CredentialKeys)
  {
  }

  /**
   * The error message is the fixed prefix followed by exactly the missing
   * keys: splitting the rest on ", " gives them back, in key order, each
   * once, none left out.
   */
  lemma FromMappingErrorListsMissing(mapping: map<string, string>)
    requires FromMapping(mapping).Err?
    ensures var msg := FromMapping(mapping).error;
      && |MissingPrefix| <= |msg| && msg[..|MissingPrefix|] == MissingPrefix
      && var listed := PyStr.Split(msg[|MissingPrefix|..], KeySeparator);
      && listed == MissingKeys(CredentialKeys, mapping)
      && (forall k :: k in listed <==> k in CredentialKeys && !Provided(mapping, k))
      && IsSubsequence(listed, CredentialKeys) && Distinct(listed)
  {
    var missing := MissingKeys(CredentialKeys, mapping);
    var msg := FromMapping(mapping).error;
    KeysHaveNoComma();
    assert msg[|MissingPrefix|..] == PyStr.Join(missing, KeySeparator);
    PyStr.SplitJoin(missing, KeySeparator);
    CredentialKeysDistinct();
    MissingKeysInOrder(CredentialKeys, mapping);
  }
}
