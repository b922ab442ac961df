/** Definition records and the name index built from them. The index is a
    JavaScript `Map` filled by `set` in list order, so a name defined twice
    is bound to its last record. */
module Definitions {

  /** A constant named in the definitions file and the 1-based line of its
      `define_ex` call. */
  datatype Definition = Definition(name: string, line: nat)

  /** The names the records define. */
  function Names(cs: seq<Definition>): (ns: set<string>)
    ensures forall k :: k in ns <==> exists i :: 0 <= i < |cs| && cs[i].name == k
  {
    set i | 0 <= i < |cs| :: cs[i].name
  }

  /** The map the `forEach(c => map.set(c.name, c))` loop leaves behind. */
  function Index(cs: seq<Definition>): map<string, Definition>
    decreases |cs|
  {
    if cs == [] then map[]
    else Index(cs[..|cs| - 1])[cs[|cs| - 1].name := cs[|cs| - 1]]
  }

  /** Record `i` is the last one that defines `k`. */
  predicate IsLastFor(cs: seq<Definition>, k: string, i: int) {
    0 <= i < |cs| && cs[i].name == k && forall j :: i < j < |cs| ==> cs[j].name != k
  }

  /** The index has exactly the defined names as keys. */
  lemma {:induction false} IndexKeys(cs: seq<Definition>)
    ensures Index(cs).Keys == Names(cs)
    decreases |cs|
  {
    if cs != [] {
      var init := cs[..|cs| - 1];
      IndexKeys(init);
      forall k | k in Names(init) ensures k in Names(cs) {
        var i :| 0 <= i < |init| && init[i].name == k;
        assert cs[i].name == k;
      }
      forall k | k in Names(cs) ensures k in Names(init) || k == cs[|cs| - 1].name {
        var i :| 0 <= i < |cs| && cs[i].name == k;
        if i < |cs| - 1 { assert init[i].name == k; }
      }
    }
  }

  /** Each name is bound to its last record (last one wins). */
  lemma {:induction false} IndexLastWins(cs: seq<Definition>, k: string)
    requires k in Index(cs)
    ensures exists i :: IsLastFor(cs, k, i) && Index(cs)[k] == cs[i]
    decreases |cs|
  {
    var last := |cs| - 1;
    if cs[last].name == k {
      assert IsLastFor(cs, k, last);
    } else {
      var init := cs[..last];
      IndexLastWins(init, k);
      var i :| IsLastFor(init, k, i) && Index(init)[k] == init[i];
      assert IsLastFor(cs, k, i);
    }
  }

  /** Lookup in the index succeeds exactly for defined names, and yields
      the last record with that name. */
  lemma IndexLookup(cs: seq<Definition>, k: string)
    ensures k in Index(cs) <==> exists i :: 0 <= i < |cs| && cs[i].name == k
    ensures k in Index(cs) ==> Index(cs)[k].name == k && exists i :: IsLastFor(cs, k, i) && Index(cs)[k] == cs[i]
  {
    IndexKeys(cs);
    if k in Index(cs) {
      IndexLastWins(cs, k);
    }
  }

  /** The `constantMap` loop at the top of the decoration pass. */
  method BuildIndex(constants: seq<Definition>) returns (constantMap: map<string, Definition>)
    ensures constantMap == Index(constants)
    ensures constantMap.Keys == Names(constants)
  {
    constantMap := map[];
    var i := 0;
    while i < |constants|
      invariant 0 <= i <= |constants|
      invariant constantMap == Index(constants[..i])
    {
      assert constants[..i + 1][..i] == constants[..i];
      constantMap := constantMap[constants[i].name := constants[i]];
      i := i + 1;
    }
    assert constants[..i] == constants;
    IndexKeys(constants);
  }
}
