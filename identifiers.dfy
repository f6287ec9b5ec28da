/**
 * Block identifiers (`namespace:path`) and the normalisation the store applies
 * to every string before it is stored, removed or compared.
 *
 * Minecraft's character rules for identifiers are not part of this model: the
 * identifier constructor's validity check is the parameter `valid`.
 */
module Identifiers {
  import opened Optional
  import opened Text

  datatype Identifier = Identifier(ns: string, path: string)

  /** Which identifiers the identifier constructor accepts. */
  type IdRules = Identifier -> bool

  const DefaultNamespace: string := "minecraft"

  /** `Identifier.toString`: the namespace, a colon, then the path. */
  function ToString(id: Identifier): string {
    id.ns + ":" + id.path
  }

  /** Where the parts of an identifier sit in its string form. */
  lemma ToStringLayout(id: Identifier)
    ensures |ToString(id)| == |id.ns| + 1 + |id.path|
    ensures ToString(id)[..|id.ns|] == id.ns && ToString(id)[|id.ns|] == ':'
    ensures ToString(id)[|id.ns| + 1..] == id.path
  {
  }

  /** Index of the first `:`. */
  function FirstColon(s: string): (i: nat)
    requires ':' in s
    ensures i < |s| && s[i] == ':' && ':' !in s[..i]
  {
    if s[0] == ':' then
      0
    else
      assert s == [s[0]] + s[1..];
      var j := FirstColon(s[1..]);
      assert s[..j + 1] == [s[0]] + s[1..][..j];
      j + 1
  }

  /** Splits at the first `:`: namespace before it, path after it. */
  function Split(s: string): (id: Identifier)
    requires ':' in s
    ensures ToString(id) == s && ':' !in id.ns
  {
    var i := FirstColon(s);
    assert s == s[..i] + [s[i]] + s[i + 1..];
    Identifier(s[..i], s[i + 1..])
  }

  /** A namespace without `:` is recovered by splitting the string form. */
  lemma SplitToString(id: Identifier)
    requires ':' !in id.ns
    ensures Split(ToString(id)) == id
  {
    var s := ToString(id);
    var n := |id.ns|;
    var i := FirstColon(s);
    assert s[n] == ':';
    assert forall k :: 0 <= k < i ==> s[k] != ':';
    assert forall k :: 0 <= k < n ==> s[k] == id.ns[k];
    assert i == n;
    assert s[..n] == id.ns;
    assert s[n + 1..] == id.path;
  }

  /** `toString` is one-to-one on identifiers whose namespace has no `:`. */
  lemma ToStringInjective(a: Identifier, b: Identifier)
    requires ':' !in a.ns && ':' !in b.ns
    requires ToString(a) == ToString(b)
    ensures a == b
  {
    SplitToString(a);
    SplitToString(b);
  }

  /** `new Identifier(s)` for a string holding a `:`: on success, an
      identifier the rules accept whose string form is `s`. */
  function Parse(valid: IdRules, s: string): (r: Option<Identifier>)
    requires ':' in s
    ensures r.Some? ==> valid(r.value) && ':' !in r.value.ns && ToString(r.value) == s
  {
    var id := Split(s);
    if valid(id) then Some(id) else None
  }

  /** ... and it fails only when the rules reject the one identifier whose
      string form is `s`. */
  lemma ParseComplete(valid: IdRules, s: string, id: Identifier)
    requires ':' in s
    requires valid(id) && ':' !in id.ns && ToString(id) == s
    ensures Parse(valid, s) == Some(id)
  {
    SplitToString(id);
  }

  /** Prefixes the default namespace when no namespace is given. */
  function Qualify(s: string): (q: string)
    ensures ':' in q
    ensures ':' in s ==> q == s
  {
    if ':' in s then s else DefaultNamespace + ":" + s
  }

  /** A name without a namespace lands in the default namespace, as its path. */
  lemma QualifyDefault(s: string)
    requires ':' !in s
    ensures Split(Qualify(s)) == Identifier(DefaultNamespace, s)
  {
    assert ':' !in DefaultNamespace;
    SplitToString(Identifier(DefaultNamespace, s));
  }

  lemma QualifyTrimmed(s: string)
    requires Trimmed(s) && s != []
    ensures Trimmed(Qualify(s))
  {
  }

  /** What a stored identifier satisfies: it passed the rules, its namespace has
      no `:`, and its string form has nothing left to trim. */
  predicate IsNormal(valid: IdRules, id: Identifier) {
    valid(id) && ':' !in id.ns && Trimmed(ToString(id))
  }

  /**
   * `RevealState.normalize`: null, blank after trimming, or rejected by the
   * identifier constructor gives no identifier; otherwise the identifier whose
   * string form is the trimmed input, with `minecraft:` prefixed when the
   * input names no namespace.
   */
  function Normalize(valid: IdRules, raw: Option<string>): (r: Option<Identifier>)
    ensures raw.None? ==> r.None?
    ensures raw.Some? && Blank(raw.value) ==> r.None?
    ensures r.Some? ==> raw.Some? && IsNormal(valid, r.value)
                        && ToString(r.value) == Qualify(Trim(raw.value))
  {
    if raw.None? then
      None
    else
      var s := Trim(raw.value);
      if s == [] then
        None
      else
        QualifyTrimmed(s);
        Parse(valid, Qualify(s))
  }

  /** Normalisation fails only when the rules reject the identifier the
      trimmed, qualified input spells. */
  lemma NormalizeComplete(valid: IdRules, raw: Option<string>, id: Identifier)
    requires raw.Some? && !Blank(raw.value)
    requires valid(id) && ':' !in id.ns && ToString(id) == Qualify(Trim(raw.value))
    ensures Normalize(valid, raw) == Some(id)
  {
    ParseComplete(valid, Qualify(Trim(raw.value)), id);
  }

  /** Normalisation gives null when the rules reject the identifier the
      trimmed, qualified input spells. */
  lemma NormalizeRejected(valid: IdRules, raw: Option<string>, id: Identifier)
    requires raw.Some? && !valid(id) && ':' !in id.ns && ToString(id) == Qualify(Trim(raw.value))
    ensures Normalize(valid, raw) == None
  {
    if Normalize(valid, raw).Some? {
      ToStringInjective(Normalize(valid, raw).value, id);
    }
  }

  /** The string form of a stored identifier normalises back to it. */
  lemma {:induction false} NormalizeCanonical(valid: IdRules, id: Identifier)
    requires IsNormal(valid, id)
    ensures Normalize(valid, Some(ToString(id))) == Some(id)
  {
    var s := ToString(id);
    assert s[|id.ns|] == ':';
    assert !Blank(s);
    assert Trim(s) == s;
    assert Qualify(s) == s;
    NormalizeComplete(valid, Some(s), id);
  }

  /** A successful normalisation is idempotent on the canonical string. */
  lemma {:induction false} NormalizeIdempotent(valid: IdRules, raw: Option<string>)
    requires Normalize(valid, raw).Some?
    ensures Normalize(valid, Some(ToString(Normalize(valid, raw).value))) == Normalize(valid, raw)
  {
    NormalizeCanonical(valid, Normalize(valid, raw).value);
  }

  /** A name without namespace means the same block as `minecraft:` followed by it. */
  lemma {:induction false} DefaultNamespaceEquivalence(valid: IdRules, s: string)
    requires ':' !in s && !Blank(s)
    ensures Normalize(valid, Some(s)) == Normalize(valid, Some(DefaultNamespace + ":" + Trim(s)))
  {
    var t := Trim(s);
    var q := DefaultNamespace + ":" + t;
    TrimKeepsAbsent(s, ':');
    assert Qualify(t) == q;
    QualifyTrimmed(t);
    assert q[9] == ':';
    assert !Blank(q);
    assert Trim(q) == q;
    assert Qualify(q) == q;
  }

  lemma StoneFacts(s: string)
    requires s == "stone"
    ensures ':' !in s && !Blank(s) && Trimmed(s)
    ensures "minecraft:stone" == DefaultNamespace + ":" + s
  {
    assert s[0] == 's' && s[|s| - 1] == 'e';
  }

  /** The instance `normalize("stone") == normalize("minecraft:stone")`. */
  lemma {:induction false} StoneIsMinecraftStone(valid: IdRules, s: string)
    requires s == "stone"
    ensures Normalize(valid, Some(s)) == Normalize(valid, Some("minecraft:stone"))
  {
    StoneFacts(s);
    DefaultNamespaceEquivalence(valid, s);
  }

  /**
   * `RevealState.normalizeIdString`: the canonical string when the input
   * normalises (and that string normalises to the same identifier), the input
   * itself, null included, when it does not.
   */
  function NormalizeIdString(valid: IdRules, raw: Option<string>): (r: Option<string>)
    ensures Normalize(valid, raw).None? ==> r == raw
    ensures Normalize(valid, raw).Some? ==> r == Some(ToString(Normalize(valid, raw).value))
    ensures Normalize(valid, raw).Some? ==>
              r.Some? && Normalize(valid, r) == Normalize(valid, raw)
              && Trimmed(r.value) && ':' in r.value
  {
    match Normalize(valid, raw)
    case None => raw
    case Some(id) =>
      NormalizeCanonical(valid, id);
      assert ToString(id)[|id.ns|] == ':';
      Some(ToString(id))
  }
}
