/** Redaction of secret config values before a config reaches the audit log. */
module Redaction {
  import opened Wrappers
  import opened JsonTrees

  const AUDIT_REDACTED := "[REDACTED]"

  const SENSITIVE_FRAGMENTS: seq<string> :=
    ["password", "passwd", "secret", "token", "credential", "apikey", "api_key", "access_key", "private_key"]

  /** The lower-case letter, as far as it is an ASCII letter: two letters outside ASCII, the dotted capital I
      and the Kelvin sign, have one too. No other letter matters, because the fragments are ASCII. */
  function Lower(c: char): char {
    if 'A' <= c <= 'Z' then c - 'A' + 'a'
    else if c == '\U{0130}' then 'i'
    else if c == '\U{212A}' then 'k'
    else c
  }

  function ToLower(s: string): string {
    seq(|s|, i requires 0 <= i < |s| => Lower(s[i]))
  }

  predicate Contains(s: string, fragment: string) {
    fragment <= s || (s != "" && Contains(s[1..], fragment))
  }

  predicate IsSensitiveConfigKey(key: string) {
    exists fragment <- SENSITIVE_FRAGMENTS :: Contains(ToLower(key), fragment)
  }

  // ---------------------------------------------------------------- which keys are sensitive

  function Upper(c: char): char {
    if 'a' <= c <= 'z' then c - 'a' + 'A' else c
  }

  function ToUpper(s: string): string {
    seq(|s|, i requires 0 <= i < |s| => Upper(s[i]))
  }

  /** `c` is the lower-case letter `d` or one of its capitals. */
  predicate IsLetter(c: char, d: char) {
    c == d || c == Upper(d) || (c == '\U{0130}' && d == 'i') || (c == '\U{212A}' && d == 'k')
  }

  /** The fragment stands somewhere in the key, in letters of either case. */
  ghost predicate HasFragment(key: string, fragment: string) {
    exists i :: 0 <= i <= |key| - |fragment| && HasFragmentAt(key, fragment, i)
  }

  predicate HasFragmentAt(key: string, fragment: string, i: nat)
    requires i <= |key| - |fragment|
  {
    forall j | 0 <= j < |fragment| :: IsLetter(key[i + j], fragment[j])
  }

  predicate StandsAt(s: string, fragment: string, i: nat) {
    i <= |s| - |fragment| && s[i..i + |fragment|] == fragment
  }

  lemma {:induction false} ContainsSomewhere(s: string, fragment: string)
    ensures Contains(s, fragment) <==> exists i: nat :: StandsAt(s, fragment, i)
  {
    if fragment <= s {
      assert StandsAt(s, fragment, 0);
    } else if s != "" {
      ContainsSomewhere(s[1..], fragment);
      if i: nat :| StandsAt(s, fragment, i) {
        assert i > 0 && StandsAt(s[1..], fragment, i - 1);
      }
      if i: nat :| StandsAt(s[1..], fragment, i) {
        assert StandsAt(s, fragment, i + 1);
      }
    }
  }

  predicate IsPlain(fragment: string) {
    forall d <- fragment :: 'a' <= d <= 'z' || d == '_'
  }

  lemma LoweredFragmentAt(key: string, fragment: string, i: nat)
    requires IsPlain(fragment) && i <= |key| - |fragment|
    ensures StandsAt(ToLower(key), fragment, i) <==> HasFragmentAt(key, fragment, i)
  {
    var part := ToLower(key)[i..i + |fragment|];
    forall j | 0 <= j < |fragment|
      ensures part[j] == fragment[j] <==> IsLetter(key[i + j], fragment[j])
    {
      assert fragment[j] in fragment && part[j] == Lower(key[i + j]);
    }
  }

  lemma LoweredFragment(key: string, fragment: string)
    requires IsPlain(fragment)
    ensures Contains(ToLower(key), fragment) <==> HasFragment(key, fragment)
  {
    ContainsSomewhere(ToLower(key), fragment);
    forall i | 0 <= i <= |key| - |fragment|
      ensures StandsAt(ToLower(key), fragment, i) <==> HasFragmentAt(key, fragment, i)
    {
      LoweredFragmentAt(key, fragment, i);
    }
  }

  /** A key is sensitive exactly when one of the nine fragments stands somewhere in it, in letters of either case. */
  lemma SensitiveKeys(key: string)
    ensures
      IsSensitiveConfigKey(key) <==>
      exists fragment <- ["password", "passwd", "secret", "token", "credential",
                          "apikey", "api_key", "access_key", "private_key"] :: HasFragment(key, fragment)
  {
    forall fragment | fragment in SENSITIVE_FRAGMENTS
      ensures Contains(ToLower(key), fragment) <==> HasFragment(key, fragment)
    {
      LoweredFragment(key, fragment);
    }
  }

  lemma LetterCaseDoesNotMatter(key: string)
    ensures IsSensitiveConfigKey(ToUpper(key)) <==> IsSensitiveConfigKey(key)
  {
    assert ToLower(ToUpper(key)) == ToLower(key);
  }

  // ---------------------------------------------------------------- redaction

  function RedactConfigValue(v: Json): Json {
    match v
    case Object(members) =>
      Object(map k | k in members
               :: if IsSensitiveConfigKey(k) then String(AUDIT_REDACTED) else RedactConfigValue(members[k]))
    case Array(items) => Array(seq(|items|, i requires 0 <= i < |items| => RedactConfigValue(items[i])))
    case _ => v
  }

  function RedactedLeaf(key: string, v: Json): Json {
    if IsSensitiveConfigKey(key) then String(AUDIT_REDACTED) else RedactConfigValue(v)
  }

  /** The two trees are the same except for what stands under sensitive keys, at any depth. */
  ghost predicate AgreeExceptSecrets(v: Json, w: Json) {
    if v.Object? && w.Object? then
      && v.members.Keys == w.members.Keys
      && forall k <- v.members.Keys :: IsSensitiveConfigKey(k) || AgreeExceptSecrets(v.members[k], w.members[k])
    else if v.Array? && w.Array? then
      && |v.items| == |w.items|
      && forall i | 0 <= i < |v.items| :: AgreeExceptSecrets(v.items[i], w.items[i])
    else v == w
  }

  /** Non-interference, exactly: two configs have the same redacted form just when they differ
      in nothing but secrets. So no secret shows, and nothing else is lost. */
  lemma {:induction false} RedactionShowsAllButSecrets(v: Json, w: Json)
    ensures RedactConfigValue(v) == RedactConfigValue(w) <==> AgreeExceptSecrets(v, w)
  {
    var r, s := RedactConfigValue(v), RedactConfigValue(w);
    if v.Object? && w.Object? {
      assert r.members.Keys == v.members.Keys && s.members.Keys == w.members.Keys;
      forall k | k in v.members && k in w.members {
        RedactionShowsAllButSecrets(v.members[k], w.members[k]);
      }
      if r == s {
        assert forall k <- v.members.Keys :: r.members[k] == s.members[k];
      }
      if AgreeExceptSecrets(v, w) {
        assert r.members == s.members;
      }
    } else if v.Array? && w.Array? {
      forall i | 0 <= i < |v.items| && i < |w.items| {
        RedactionShowsAllButSecrets(v.items[i], w.items[i]);
      }
      if r == s {
        assert |v.items| == |r.items| == |w.items|;
        forall i | 0 <= i < |v.items|
          ensures AgreeExceptSecrets(v.items[i], w.items[i])
        {
          assert r.items[i] == s.items[i];
        }
      }
      if AgreeExceptSecrets(v, w) {
        assert r.items == s.items;
      }
    }
  }

  /** Redaction touches nothing but the values under sensitive keys. */
  lemma {:induction false} RedactionKeepsTheRest(v: Json)
    ensures AgreeExceptSecrets(RedactConfigValue(v), v)
  {
    match v
    case Object(members) =>
      forall k | k in members { RedactionKeepsTheRest(members[k]); }
    case Array(items) =>
      forall i | 0 <= i < |items| { RedactionKeepsTheRest(items[i]); }
    case _ =>
  }

  lemma RedactingTwice(v: Json)
    ensures RedactConfigValue(RedactConfigValue(v)) == RedactConfigValue(v)
  {
    RedactionKeepsTheRest(v);
    RedactionShowsAllButSecrets(RedactConfigValue(v), v);
  }

  // ---------------------------------------------------------------- place by place

  /** A step from a tree to one of its parts. */
  datatype Step = Key(key: string) | Index(index: nat)

  /** The part at the end of the steps, if there is one. */
  function PartAt(v: Json, steps: seq<Step>): Option<Json> {
    if steps == [] then Some(v)
    else
      match steps[0]
      case Key(k) => if v.Object? && k in v.members then PartAt(v.members[k], steps[1..]) else None
      case Index(i) => if v.Array? && i < |v.items| then PartAt(v.items[i], steps[1..]) else None
  }

  predicate IsSecret(step: Step) {
    step.Key? && IsSensitiveConfigKey(step.key)
  }

  /** What redaction makes of every part, at any depth and also in arrays: what stands right under a sensitive key
      becomes the placeholder, and everything else stays where and what it was. */
  lemma {:induction false} RedactedPart(v: Json, steps: seq<Step>)
    requires forall i | 0 <= i < |steps| - 1 :: !IsSecret(steps[i])
    ensures
      PartAt(RedactConfigValue(v), steps) ==
      match PartAt(v, steps)
      case None => None
      case Some(part) =>
        Some(if steps != [] && IsSecret(steps[|steps| - 1]) then String("[REDACTED]") else RedactConfigValue(part))
    ensures
      PartAt(v, steps).Some? && !PartAt(v, steps).value.Object? && !PartAt(v, steps).value.Array? ==>
      PartAt(RedactConfigValue(v), steps) ==
      Some(if steps != [] && IsSecret(steps[|steps| - 1]) then String("[REDACTED]") else PartAt(v, steps).value)
    decreases |steps|
  {
    if steps != [] {
      var rest := steps[1..];
      assert forall i | 0 <= i < |rest| :: rest[i] == steps[i + 1];
      match steps[0]
      case Key(k) =>
        if v.Object? && k in v.members {
          if |steps| == 1 {
            assert rest == [];
          } else {
            RedactedPart(v.members[k], rest);
          }
        }
      case Index(i) =>
        if v.Array? && i < |v.items| {
          RedactedPart(v.items[i], rest);
        }
    }
  }
}
