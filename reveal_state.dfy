/**
 * `RevealState`: the feature flag and the set of block identifiers whose
 * baked models are not drawn, with normalised add and remove, a sorted
 * listing, the fail-open membership test, and persistence to a JSON array of
 * strings.
 *
 * The block registry (`Registries.BLOCK.getOrEmpty(id).isPresent()`) is the
 * parameter `registered`; the block-to-identifier lookup
 * (`Registries.BLOCK.getId`) is the parameter `getId`, whose outcome may be a
 * thrown exception. The configuration file is a `ConfigFile` object holding
 * its already-parsed JSON.
 */
module Store {
  import opened Optional
  import opened Text
  import opened Sorting
  import opened Identifiers

  /** What `Registries.BLOCK.getId(block)` does: returns an identifier or
      null, or throws. */
  datatype Resolution = Resolved(id: Option<Identifier>) | Threw

  /** The top-level JSON value of the file: an array of strings, or anything
      else (another kind of value, or text that does not parse). */
  datatype Json = NotArray | Array(items: seq<string>)

  datatype FileContent = Missing | Present(json: Json)

  /** Whether a load or save completed or threw `IOException`. */
  datatype IoStatus = IoOk | IoFailed

  /** The configuration file; when `failing`, every read, write and directory
      creation on its path throws `IOException`. */
  class ConfigFile {
    var content: FileContent
    const failing: bool

    constructor(content: FileContent, failing: bool)
      ensures this.content == content && this.failing == failing
    {
      this.content := content;
      this.failing := failing;
    }
  }

  /** The string forms of a set of identifiers. */
  function Image(ids: set<Identifier>): set<string> {
    set id | id in ids :: ToString(id)
  }

  /** What `listIds` returns and `save` writes: ascending, no duplicates,
      exactly the string forms of the identifiers. */
  predicate IsListing(items: seq<string>, ids: set<Identifier>) {
    Sorted(items) && Distinct(items) && Elements(items) == Image(ids)
  }

  /** The normalisation a load applies to one array element. */
  type Normalizer = string -> Option<Identifier>

  function NormalizerOf(valid: IdRules): Normalizer {
    s => Normalize(valid, Some(s))
  }

  /** What one array element contributes to a load: its identifier if it
      normalises and the registry has it, nothing otherwise. */
  function Admitted(norm: Normalizer, registered: IdRules, s: string): (r: set<Identifier>)
    ensures forall id :: id in r <==> norm(s) == Some(id) && registered(id)
    ensures |r| <= 1
  {
    match norm(s)
    case None => {}
    case Some(id) => if registered(id) then {id} else {}
  }

  /** `Admitted` under the normalisation of `load`, spelled out. */
  lemma AdmittedByNormalize(valid: IdRules, registered: IdRules, raw: string)
    ensures Admitted(NormalizerOf(valid), registered, raw)
              == (var id := Normalize(valid, Some(raw));
                  if id.Some? && registered(id.value) then {id.value} else {})
  {
    assert NormalizerOf(valid)(raw) == Normalize(valid, Some(raw));
  }

  /** The set a load of the array `items` builds, element by element. */
  function Kept(norm: Normalizer, registered: IdRules, items: seq<string>): (r: set<Identifier>)
    ensures forall id :: id in r ==> registered(id)
    ensures |r| <= |items|
  {
    if items == [] then
      {}
    else
      var init := Kept(norm, registered, items[..|items| - 1]);
      var last := Admitted(norm, registered, items[|items| - 1]);
      UnionSize(init, last);
      init + last
  }

  lemma UnionSize<T>(a: set<T>, b: set<T>)
    ensures |a + b| <= |a| + |b|
  {
    assert a + b == a + (b - a);
  }

  /** An identifier survives a load exactly when some element normalises to it
      and the registry has it. */
  lemma {:induction false} KeptMembers(norm: Normalizer, registered: IdRules, items: seq<string>, id: Identifier)
    ensures id in Kept(norm, registered, items) <==>
              registered(id) && exists i :: 0 <= i < |items| && norm(items[i]) == Some(id)
  {
    if items != [] {
      var n := |items| - 1;
      var init := items[..n];
      var last := Admitted(norm, registered, items[n]);
      assert Kept(norm, registered, items) == Kept(norm, registered, init) + last;
      KeptMembers(norm, registered, init, id);
      assert id in last <==> registered(id) && norm(items[n]) == Some(id);
      if id in Kept(norm, registered, init) {
        var i :| 0 <= i < |init| && norm(init[i]) == Some(id);
        assert items[i] == init[i];
      }
      if registered(id) && exists i :: 0 <= i < |items| && norm(items[i]) == Some(id) {
        var i :| 0 <= i < |items| && norm(items[i]) == Some(id);
        if i < n {
          assert init[i] == items[i];
        }
      }
    }
  }

  /** Loading what a save wrote gives back the saved set, provided the registry
      still has every saved identifier. */
  lemma {:induction false} LoadOfListing(valid: IdRules, registered: IdRules, ids: set<Identifier>, items: seq<string>)
    requires forall id :: id in ids ==> IsNormal(valid, id) && registered(id)
    requires Elements(items) == Image(ids)
    ensures Kept(NormalizerOf(valid), registered, items) == ids
  {
    var norm := NormalizerOf(valid);
    forall id | id in ids ensures id in Kept(norm, registered, items) {
      assert ToString(id) in Elements(items);
      var i :| 0 <= i < |items| && items[i] == ToString(id);
      NormalizeCanonical(valid, id);
      assert norm(items[i]) == Some(id);
      KeptMembers(norm, registered, items, id);
    }
    forall id | id in Kept(norm, registered, items) ensures id in ids {
      KeptMembers(norm, registered, items, id);
      var i :| 0 <= i < |items| && norm(items[i]) == Some(id);
      assert items[i] in Image(ids);
      var stored :| stored in ids && ToString(stored) == items[i];
      NormalizeCanonical(valid, stored);
    }
  }

  /** One step of `listIds`: appending the string form of an identifier not
      yet listed keeps the list duplicate-free and one entry per identifier. */
  lemma ListingStep(out: seq<string>, done: set<Identifier>, id: Identifier)
    requires Distinct(out) && Elements(out) == Image(done) && |out| == |done|
    requires id !in done && ':' !in id.ns
    requires forall other :: other in done ==> ':' !in other.ns
    ensures Distinct(out + [ToString(id)])
    ensures Elements(out + [ToString(id)]) == Image(done + {id})
    ensures |out + [ToString(id)]| == |done + {id}|
  {
    var name := ToString(id);
    assert name !in Elements(out) by {
      forall other | other in done ensures ToString(other) != name {
        if ToString(other) == name {
          ToStringInjective(other, id);
        }
      }
    }
    AppendDistinct(out, name);
    ElementsAppend(out, name);
  }

  /** One more element of the array extends the loaded set by what it admits. */
  lemma KeptStep(norm: Normalizer, registered: IdRules, items: seq<string>, i: nat)
    requires i < |items|
    ensures Kept(norm, registered, items[..i + 1])
              == Kept(norm, registered, items[..i]) + Admitted(norm, registered, items[i])
  {
    assert items[..i + 1][..i] == items[..i];
  }

  lemma KeptOfThree(norm: Normalizer, registered: IdRules, items: seq<string>)
    requires |items| == 3
    ensures Kept(norm, registered, items) == Admitted(norm, registered, items[0])
              + Admitted(norm, registered, items[1]) + Admitted(norm, registered, items[2])
  {
    assert items[..2][..1] == items[..1] && items[..1][..0] == [];
    assert items[..3] == items;
    assert Kept(norm, registered, items[..1]) == Admitted(norm, registered, items[0]);
    assert Kept(norm, registered, items[..2])
        == Admitted(norm, registered, items[0]) + Admitted(norm, registered, items[1]);
  }

  lemma ExampleStone(valid: IdRules, a: string)
    requires a == "stone" && valid(Identifier("minecraft", "stone"))
    ensures Normalize(valid, Some(a)) == Some(Identifier("minecraft", "stone"))
  {
    StoneFacts(a);
    NormalizeComplete(valid, Some(a), Identifier("minecraft", "stone"));
  }

  lemma ExampleInvalid(valid: IdRules, b: string)
    requires b == "invalid!!" && !valid(Identifier("minecraft", "invalid!!"))
    ensures Normalize(valid, Some(b)) == None
  {
    assert b[0] == 'i' && b[|b| - 1] == '!';
    assert ':' !in b;
    assert Trim(b) == b;
    var rejected := Identifier("minecraft", "invalid!!");
    assert ToString(rejected) == Qualify(Trim(b));
    NormalizeRejected(valid, Some(b), rejected);
  }

  lemma ExampleDirt(valid: IdRules, c: string)
    requires c == "minecraft:dirt" && valid(Identifier("minecraft", "dirt"))
    ensures Normalize(valid, Some(c)) == Some(Identifier("minecraft", "dirt"))
  {
    assert c[0] == 'm' && c[|c| - 1] == 't' && c[9] == ':';
    assert Trim(c) == c;
    NormalizeComplete(valid, Some(c), Identifier("minecraft", "dirt"));
  }

  /** The file `["stone", "invalid!!", "minecraft:dirt"]`, with identifier
      rules that reject `invalid!!`, loads as `minecraft:stone` and
      `minecraft:dirt`. */
  lemma LoadExample(valid: IdRules, registered: IdRules, items: seq<string>)
    requires items == ["stone", "invalid!!", "minecraft:dirt"]
    requires valid(Identifier("minecraft", "stone")) && valid(Identifier("minecraft", "dirt"))
    requires !valid(Identifier("minecraft", "invalid!!"))
    requires registered(Identifier("minecraft", "stone")) && registered(Identifier("minecraft", "dirt"))
    ensures Kept(NormalizerOf(valid), registered, items)
         == {Identifier("minecraft", "stone"), Identifier("minecraft", "dirt")}
  {
    var norm := NormalizerOf(valid);
    ExampleStone(valid, items[0]);
    ExampleInvalid(valid, items[1]);
    ExampleDirt(valid, items[2]);
    KeptOfThree(norm, registered, items);
  }

  class RevealState {
    var enabled: bool
    var ids: set<Identifier>
    /** The identifier constructor's validity rules. */
    const rules: IdRules

    /** Every stored identifier came out of `normalize`. */
    ghost predicate Valid()
      reads this
    {
      forall id :: id in ids ==> IsNormal(rules, id)
    }

    /** The state at class initialisation: disabled, nothing hidden. */
    constructor(rules: IdRules)
      ensures Valid() && this.rules == rules
      ensures !enabled && ids == {}
    {
      this.rules := rules;
      enabled := false;
      ids := {};
    }

    function IsEnabled(): bool
      reads this
    {
      enabled
    }

    method SetEnabled(v: bool)
      modifies this`enabled
      ensures IsEnabled() == v && ids == old(ids)
    {
      enabled := v;
    }

    function HiddenCount(): nat
      reads this
    {
      |ids|
    }

    /**
     * `shouldHide`: false while disabled or for a null block; otherwise true
     * exactly when the block's identifier is known and stored. A lookup that
     * throws is caught and answers false.
     */
    function ShouldHide<B>(block: Option<B>, getId: B -> Resolution): (hidden: bool)
      reads this
      ensures !enabled || block.None? ==> !hidden
      ensures block.Some? && getId(block.value).Threw? ==> !hidden
      ensures hidden <==> (enabled && block.Some? && getId(block.value).Resolved?
                           && getId(block.value).id.Some? && getId(block.value).id.value in ids)
    {
      if !enabled || block.None? then
        false
      else
        match getId(block.value)
        case Threw => false
        case Resolved(id) => id.Some? && id.value in ids
    }

    /**
     * `addByString`: false with nothing changed when the input does not
     * normalise or the registry lacks the block; otherwise the identifier is
     * in the set afterwards and the answer is whether it was absent.
     */
    method AddByString(raw: Option<string>, registered: IdRules) returns (added: bool)
      requires Valid()
      modifies this`ids
      ensures Valid()
      ensures Normalize(rules, raw).None? ==> !added && ids == old(ids)
      ensures Normalize(rules, raw).Some? && !registered(Normalize(rules, raw).value) ==>
                !added && ids == old(ids)
      ensures Normalize(rules, raw).Some? && registered(Normalize(rules, raw).value) ==>
                var id := Normalize(rules, raw).value;
                added == (id !in old(ids)) && ids == old(ids) + {id}
      ensures |ids| == |old(ids)| + (if added then 1 else 0)
    {
      var id := Normalize(rules, raw);
      if id.None? {
        return false;
      }
      if !registered(id.value) {
        return false;
      }
      added := id.value !in ids;
      if added {
        assert |ids + {id.value}| == |ids| + 1;
      } else {
        assert ids + {id.value} == ids;
      }
      ids := ids + {id.value};
    }

    /**
     * `removeByString`: false with nothing changed when the input does not
     * normalise; otherwise the identifier is gone afterwards and the answer is
     * whether it was present.
     */
    method RemoveByString(raw: Option<string>) returns (removed: bool)
      requires Valid()
      modifies this`ids
      ensures Valid()
      ensures Normalize(rules, raw).None? ==> !removed && ids == old(ids)
      ensures Normalize(rules, raw).Some? ==>
                var id := Normalize(rules, raw).value;
                removed == (id in old(ids)) && ids == old(ids) - {id}
      ensures |ids| == |old(ids)| - (if removed then 1 else 0)
    {
      var id := Normalize(rules, raw);
      if id.None? {
        return false;
      }
      removed := id.value in ids;
      ids := ids - {id.value};
    }

    /** The first half of `listIds`: the string form of every stored
        identifier, appended in set iteration order. */
    method StringForms() returns (out: seq<string>)
      requires Valid()
      ensures Distinct(out) && Elements(out) == Image(ids)
      ensures |out| == |ids|
    {
      out := [];
      var rest := ids;
      ghost var done: set<Identifier> := {};
      while rest != {}
        invariant done + rest == ids && done !! rest
        invariant Distinct(out)
        invariant Elements(out) == Image(done)
        invariant |out| == |done|
        decreases rest
      {
        var id :| id in rest;
        ListingStep(out, done, id);
        out := out + [ToString(id)];
        rest := rest - {id};
        done := done + {id};
      }
    }

    /** `listIds`: the string forms of the stored identifiers, ascending and
        without duplicates, one per identifier. */
    method ListIds() returns (r: seq<string>)
      requires Valid()
      ensures IsListing(r, ids)
      ensures |r| == HiddenCount()
    {
      var out := StringForms();
      r := Sort(out);
      assert forall x :: x in r <==> x in multiset(out);
    }

    /** `save`: on success the file holds exactly the listing of the set; the
        set and the flag are untouched. */
    method Save(file: ConfigFile) returns (status: IoStatus)
      requires Valid()
      modifies file
      ensures status == (if file.failing then IoFailed else IoOk)
      ensures !file.failing ==> file.content.Present? && file.content.json.Array?
                                && IsListing(file.content.json.items, ids)
    {
      if file.failing {
        return IoFailed;
      }
      var sorted := ListIds();
      var arr: seq<string> := [];
      for i := 0 to |sorted|
        invariant arr == sorted[..i]
      {
        arr := arr + [sorted[i]];
      }
      assert arr == sorted;
      file.content := Present(Array(arr));
      status := IoOk;
    }

    /** One element of the array in `load`: added when it normalises and
        names a registered block, skipped otherwise. */
    method AdmitOne(raw: string, registered: IdRules)
      requires Valid()
      modifies this`ids
      ensures Valid()
      ensures ids == old(ids) + Admitted(NormalizerOf(rules), registered, raw)
    {
      var id := Normalize(rules, Some(raw));
      AdmittedByNormalize(rules, registered, raw);
      if id.Some? && registered(id.value) {
        ids := ids + {id.value};
      }
    }

    /** The loop of `load` over the array: each element that normalises and
        names a registered block is added. */
    method AddAdmitted(items: seq<string>, registered: IdRules)
      requires Valid()
      modifies this`ids
      ensures Valid()
      ensures ids == old(ids) + Kept(NormalizerOf(rules), registered, items)
    {
      ghost var norm := NormalizerOf(rules);
      for i := 0 to |items|
        invariant Valid()
        invariant ids == old(ids) + Kept(norm, registered, items[..i])
      {
        KeptStep(norm, registered, items, i);
        AdmitOne(items[i], registered);
      }
      assert items[..|items|] == items;
    }

    /**
     * `load`: the set is cleared first and stays empty on every failure. A
     * missing file is created holding `[]`. An array keeps each element that
     * normalises and names a registered block; any other top-level value is
     * ignored.
     */
    method Load(file: ConfigFile, registered: IdRules) returns (status: IoStatus)
      requires Valid()
      modifies this`ids, file
      ensures Valid()
      ensures status == (if file.failing then IoFailed else IoOk)
      ensures ids == (if !file.failing && old(file.content).Present? && old(file.content).json.Array?
                      then Kept(NormalizerOf(rules), registered, old(file.content).json.items)
                      else {})
      ensures old(file.content).Missing? && !file.failing ==> file.content == Present(Array([]))
      ensures old(file.content).Present? ==> file.content == old(file.content)
    {
      ids := {};
      match file.content {
        case Missing =>
          status := Save(file);
          if !file.failing {
            assert Image(ids) == {};
            ElementsEmpty(file.content.json.items);
          }
        case Present(json) =>
          if file.failing {
            return IoFailed;
          }
          match json {
            case NotArray =>
            case Array(items) =>
              AddAdmitted(items, registered);
          }
          status := IoOk;
      }
    }
  }

  /** Saving one store and loading the file into a fresh one reproduces the set,
      when the registry still has every saved block. */
  method SaveThenLoad(s: RevealState, file: ConfigFile, registered: IdRules) returns (t: RevealState)
    requires s.Valid() && !file.failing
    requires forall id :: id in s.ids ==> registered(id)
    modifies file
    ensures fresh(t) && t.Valid() && t.rules == s.rules
    ensures t.ids == s.ids && !t.enabled
  {
    var saved := s.Save(file);
    t := new RevealState(s.rules);
    var loaded := t.Load(file, registered);
    LoadOfListing(s.rules, registered, s.ids, file.content.json.items);
  }
}
