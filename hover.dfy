/** The hover provider's lookup index (`ConstantHoverProvider`). It owns a
    name-to-record map that the constructor fills and `updateConstants`
    clears and refills in place; a hover asks the map for the word under
    the cursor. Finding that word and rendering the hover text are editor
    work and are not part of this model: the word is a parameter. */
module Hover {
  import opened Lexical
  import opened Definitions

  class ConstantHoverProvider {
    var constantMap: map<string, Definition>
    var constantFilePath: string

    constructor (constants: seq<Definition>, constantFilePath: string)
      ensures this.constantMap == Index(constants)
      ensures this.constantMap.Keys == Names(constants)
      ensures this.constantFilePath == constantFilePath
    {
      this.constantMap := map[];
      this.constantFilePath := constantFilePath;
      new;
      var i := 0;
      while i < |constants|
        invariant 0 <= i <= |constants|
        invariant this.constantMap == Index(constants[..i])
        invariant this.constantFilePath == constantFilePath
      {
        assert constants[..i + 1][..i] == constants[..i];
        this.constantMap := this.constantMap[constants[i].name := constants[i]];
        i := i + 1;
      }
      assert constants[..i] == constants;
      IndexKeys(constants);
    }

    /** `updateConstants`: clear the map, then insert every record in order;
        nothing of the previous contents survives. */
    method UpdateConstants(newConstants: seq<Definition>)
      modifies this
      ensures constantMap == Index(newConstants)
      ensures constantMap.Keys == Names(newConstants)
      ensures constantFilePath == old(constantFilePath)
    {
      constantMap := map[];
      var i := 0;
      while i < |newConstants|
        invariant 0 <= i <= |newConstants|
        invariant constantMap == Index(newConstants[..i])
        invariant constantFilePath == old(constantFilePath)
      {
        assert newConstants[..i + 1][..i] == newConstants[..i];
        constantMap := constantMap[newConstants[i].name := newConstants[i]];
        i := i + 1;
      }
      assert newConstants[..i] == newConstants;
      IndexKeys(newConstants);
    }

    /** The map lookup of `provideHover`: a record exactly when the word is a
        key, and then the record bound to it. */
    method Lookup(word: string) returns (info: Option<Definition>)
      ensures info.Some? <==> word in constantMap
      ensures info.Some? ==> info.value == constantMap[word]
    {
      if word in constantMap {
        info := Some(constantMap[word]);
      } else {
        info := None;
      }
    }
  }

  /** After `updateConstants(cs)` a hover finds a word exactly when some
      record of `cs` defines it, and shows the last such record; what was
      loaded before does not matter. */
  method HoverAfterUpdate(p: ConstantHoverProvider, cs: seq<Definition>, word: string)
    returns (info: Option<Definition>)
    modifies p
    ensures info.Some? <==> exists i :: 0 <= i < |cs| && cs[i].name == word
    ensures info.Some? ==> info.value.name == word && exists i :: IsLastFor(cs, word, i) && info.value == cs[i]
  {
    p.UpdateConstants(cs);
    info := p.Lookup(word);
    IndexLookup(cs, word);
  }
}
