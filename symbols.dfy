// The word <-> integer symbol table the token graphs are labelled with, and
// FstAlignOption of src/utilities.h: its default costs and reserved symbols,
// and RegisterSymbols, which makes sure the reserved symbols are in a table.
module Symbols {

  /** Position of the first occurrence of `s` in `syms`, or -1. */
  function IndexOf(syms: seq<string>, s: string): (k: int)
    ensures k == -1 <==> s !in syms
    ensures k != -1 ==> 0 <= k < |syms| && syms[k] == s
  {
    if |syms| == 0 then -1
    else if syms[|syms| - 1] == s && s !in syms[..|syms| - 1] then |syms| - 1
    else
      assert syms == syms[..|syms| - 1] + [syms[|syms| - 1]];
      IndexOf(syms[..|syms| - 1], s)
  }

  /** IndexOf gives the first occurrence. */
  lemma {:induction false} IndexOfFirst(syms: seq<string>, s: string)
    ensures forall j :: 0 <= j < IndexOf(syms, s) ==> syms[j] != s
  {
    if |syms| > 0 && !(syms[|syms| - 1] == s && s !in syms[..|syms| - 1]) {
      var init := syms[..|syms| - 1];
      IndexOfFirst(init, s);
      forall j | 0 <= j < IndexOf(syms, s)
        ensures syms[j] != s
      {
        assert syms[j] == init[j];
      }
    }
  }

  /** Extending a table keeps the key of every symbol it already had. */
  lemma IndexOfPrefix(t: seq<string>, u: seq<string>, x: string)
    requires t <= u && x in t
    ensures IndexOf(u, x) == IndexOf(t, x)
  {
    var k := IndexOf(t, x);
    assert u[k] == x;
    IndexOfFirst(t, x);
    IndexOfFirst(u, x);
  }

  /** Key k names symbol s in a table whose keys are the positions of its symbols. */
  predicate KeyOf(symbols: seq<string>, s: string, k: int)
  {
    0 <= k < |symbols| && symbols[k] == s
  }

  /** Keys[j] names syms[j] for every key given so far. */
  ghost predicate KeysOf(symbols: seq<string>, syms: seq<string>, keys: seq<int>)
  {
    |keys| <= |syms| && forall j :: 0 <= j < |keys| ==> KeyOf(symbols, syms[j], keys[j])
  }

  /** Adding a missing symbol keeps every key already given, and one more key joins them. */
  lemma KeysOfStep(symbols: seq<string>, syms: seq<string>, keys: seq<int>, k: int)
    requires KeysOf(symbols, syms, keys) && |keys| < |syms|
    requires KeyOf(Step(symbols, syms[|keys|]), syms[|keys|], k)
    ensures KeysOf(Step(symbols, syms[|keys|]), syms, keys + [k])
  {
    var u := Step(symbols, syms[|keys|]);
    forall j | 0 <= j < |keys| + 1
      ensures KeyOf(u, syms[j], (keys + [k])[j])
    {
      if j < |keys| {
        assert KeyOf(symbols, syms[j], keys[j]);
        assert u[keys[j]] == symbols[keys[j]];
      }
    }
  }

  /** No symbol occurs twice: each one is missing from the symbols before it. */
  ghost predicate Distinct(syms: seq<string>)
  {
    |syms| == 0 || (Distinct(syms[..|syms| - 1]) && syms[|syms| - 1] !in syms[..|syms| - 1])
  }

  /** Two positions holding the same symbol of a duplicate-free list are one. */
  lemma {:induction false} DistinctAt(syms: seq<string>, i: nat, j: nat)
    requires Distinct(syms) && i < |syms| && j < |syms| && syms[i] == syms[j]
    ensures i == j
  {
    var n := |syms| - 1;
    var init := syms[..n];
    if i < n && j < n {
      assert init[i] == syms[i] && init[j] == syms[j];
      DistinctAt(init, i, j);
    }
  }

  /** A symbol table whose keys are handed out densely from 0, as when every symbol is added
    * with AddSymbol: key k names symbols[k]. */
  class SymbolTable {
    var symbols: seq<string>

    ghost predicate Valid()
      reads this
    {
      Distinct(symbols)
    }

    constructor ()
      ensures symbols == [] && Valid()
    {
      symbols := [];
    }

    /** SymbolTable::Find(string): the key of a symbol, or -1 (kNoSymbol). */
    function Find(s: string): int
      reads this
    {
      IndexOf(symbols, s)
    }

    /** SymbolTable::Find(int64): the symbol of a key, or "" for an unknown key. */
    function Name(k: int): string
      reads this
    {
      if 0 <= k < |symbols| then symbols[k] else ""
    }

    /** In a table without duplicates the key of a symbol is its position. */
    lemma KeyIsIndex(k: int, s: string)
      requires Valid() && KeyOf(symbols, s, k)
      ensures Find(s) == k
    {
      var j := Find(s);
      DistinctAt(symbols, j, k);
    }

    /** Keys and names are inverse: the key of a key's name is that key. */
    lemma FindName(k: int)
      requires Valid() && 0 <= k < |symbols|
      ensures Find(Name(k)) == k
    {
      KeyIsIndex(k, Name(k));
    }

    /** SymbolTable::AddSymbol: the existing key of a known symbol, else the next key. */
    method AddSymbol(s: string) returns (k: int)
      requires Valid()
      modifies this
      ensures Valid()
      ensures s in old(symbols) ==> symbols == old(symbols) && k == old(Find(s))
      ensures s !in old(symbols) ==> symbols == old(symbols) + [s] && k == |old(symbols)|
      ensures Find(s) == k
    {
      k := Find(s);
      if k == -1 {
        symbols := symbols + [s];
        k := |symbols| - 1;
        assert symbols[..k] == old(symbols);
        IndexOfFirst(symbols, s);
      }
    }

    /** FstLoader::AddSymbolIfNeeded. */
    method AddSymbolIfNeeded(s: string)
      requires Valid()
      modifies this
      ensures Valid()
      ensures symbols == if s in old(symbols) then old(symbols) else old(symbols) + [s]
    {
      if Find(s) == -1 {
        var _ := AddSymbol(s);
      }
    }
  }

  /** The table after adding `s` if it is missing. */
  function Step(table: seq<string>, s: string): seq<string>
  {
    if s in table then table else table + [s]
  }

  /** The table after adding each of `syms` that is missing, in order. */
  function WithAll(table: seq<string>, syms: seq<string>): seq<string>
    decreases |syms|
  {
    if |syms| == 0 then table else WithAll(Step(table, syms[0]), syms[1..])
  }

  /** Adding what is missing keeps the old keys, adds every symbol, and adds nothing when every
    * symbol is already present. */
  lemma {:induction false} WithAllSpec(table: seq<string>, syms: seq<string>)
    ensures table <= WithAll(table, syms)
    ensures forall s :: s in syms || s in table <==> s in WithAll(table, syms)
    ensures (forall s :: s in syms ==> s in table) ==> WithAll(table, syms) == table
    decreases |syms|
  {
    if |syms| > 0 {
      WithAllSpec(Step(table, syms[0]), syms[1..]);
      assert forall s :: s in syms <==> s == syms[0] || s in syms[1..];
    }
  }

  /** Registering one more symbol after a list is one more Step. */
  lemma {:induction false} WithAllSnoc(table: seq<string>, syms: seq<string>, s: string)
    ensures WithAll(table, syms + [s]) == Step(WithAll(table, syms), s)
    decreases |syms|
  {
    if |syms| > 0 {
      assert (syms + [s])[1..] == syms[1..] + [s];
      WithAllSnoc(Step(table, syms[0]), syms[1..], s);
    }
  }

  /** One more symbol of a list taken in order: the table after its first i + 1 symbols. */
  lemma WithAllPrefix(table: seq<string>, syms: seq<string>, i: nat, s: string)
    requires i < |syms| && s == syms[i]
    ensures WithAll(table, syms[..i + 1]) == Step(WithAll(table, syms[..i]), s)
  {
    assert syms[..i + 1] == syms[..i] + [s];
    WithAllSnoc(table, syms[..i], s);
  }

  /** The same, peeling the last symbol off a non-empty list. */
  lemma WithAllLast(table: seq<string>, syms: seq<string>)
    requires |syms| > 0
    ensures WithAll(table, syms) == Step(WithAll(table, syms[..|syms| - 1]), syms[|syms| - 1])
  {
    assert syms[..|syms| - 1] + [syms[|syms| - 1]] == syms;
    WithAllSnoc(table, syms[..|syms| - 1], syms[|syms| - 1]);
  }

  /** The default spellings of the reserved symbols. */
  const SYM_EPS: string := "<eps>"
  const SYM_OOV: string := "<oov>"
  const SYM_INS: string := "<ins>"
  const SYM_DEL: string := "<del>"
  const SYM_SUB: string := "<sub>"
  const SYM_INAUDIBLE: string := "<inaudible>"
  const SYM_SILENCE: string := "<silence>"
  const SYM_UNK: string := "<unk>"

  /** FstAlignOption: the default costs, the reserved symbols and their keys. */
  class FstAlignOption {
    var bForceEnterAndExit: bool
    var corCost: int
    var insCost: int
    var delCost: int
    var subCost: int
    const symEps: string
    const symOov: string
    const symIns: string
    const symDel: string
    const symSub: string
    const symInaud: string
    const symSil: string
    const symUnk: string
    var epsIdx: int
    var oovIdx: int
    var insIdx: int
    var delIdx: int
    var subIdx: int
    var inaudIdx: int
    var silIdx: int
    var unkIdx: int

    /** The reserved symbols in the order RegisterSymbols registers them. */
    function Reserved(): seq<string>
    {
      [symEps, symOov, symIns, symDel, symSub, symInaud, symSil, symUnk]
    }

    /** Whether the graph gets an entry and exit state, and the four edit costs. */
    function Costs(): (bool, int, int, int, int)
      reads this
    {
      (bForceEnterAndExit, corCost, insCost, delCost, subCost)
    }

    constructor ()
      ensures Costs() == (false, 0, 3, 3, 4)
      ensures Reserved() == ["<eps>", "<oov>", "<ins>", "<del>", "<sub>", "<inaudible>", "<silence>", "<unk>"]
    {
      bForceEnterAndExit := false;
      corCost, insCost, delCost, subCost := 0, 3, 3, 4;
      symEps, symOov, symIns, symDel := SYM_EPS, SYM_OOV, SYM_INS, SYM_DEL;
      symSub, symInaud, symSil, symUnk := SYM_SUB, SYM_INAUDIBLE, SYM_SILENCE, SYM_UNK;
    }

    /** Find each reserved symbol, adding it when missing, and remember its key. */
    method RegisterSymbols(table: SymbolTable)
      requires table.Valid()
      modifies this, table
      ensures table.Valid()
      ensures table.symbols == WithAll(old(table.symbols), Reserved())
      ensures Registered(table.symbols)
      ensures Costs() == old(Costs())
    {
      var keys := RegisterAll(table, Reserved());
      SetKeys(table.symbols, keys);
    }

    /** Remembers the eight keys, in the order of Reserved(). */
    method SetKeys(symbols: seq<string>, keys: seq<int>)
      requires |keys| == 8 && KeysOf(symbols, Reserved(), keys)
      modifies this
      ensures Registered(symbols)
      ensures Costs() == old(Costs())
    {
      ReservedKeys(symbols, Reserved(), keys);
      epsIdx, oovIdx, insIdx, delIdx := keys[0], keys[1], keys[2], keys[3];
      subIdx, inaudIdx, silIdx, unkIdx := keys[4], keys[5], keys[6], keys[7];
    }

    /** Every reserved symbol's remembered key names it in `symbols`. */
    ghost predicate Registered(symbols: seq<string>)
      reads this
    {
      && KeyOf(symbols, symEps, epsIdx) && KeyOf(symbols, symOov, oovIdx)
      && KeyOf(symbols, symIns, insIdx) && KeyOf(symbols, symDel, delIdx)
      && KeyOf(symbols, symSub, subIdx) && KeyOf(symbols, symInaud, inaudIdx)
      && KeyOf(symbols, symSil, silIdx) && KeyOf(symbols, symUnk, unkIdx)
    }

    /** The eight keys RegisterAll gives for the eight reserved symbols. */
    static lemma ReservedKeys(symbols: seq<string>, r: seq<string>, keys: seq<int>)
      requires |r| == 8 && |keys| == 8 && KeysOf(symbols, r, keys)
      ensures KeyOf(symbols, r[0], keys[0]) && KeyOf(symbols, r[1], keys[1])
      ensures KeyOf(symbols, r[2], keys[2]) && KeyOf(symbols, r[3], keys[3])
      ensures KeyOf(symbols, r[4], keys[4]) && KeyOf(symbols, r[5], keys[5])
      ensures KeyOf(symbols, r[6], keys[6]) && KeyOf(symbols, r[7], keys[7])
    {
    }

    /** Find each symbol of a list, adding it when missing, and return their keys in order. */
    static method RegisterAll(table: SymbolTable, syms: seq<string>) returns (keys: seq<int>)
      requires table.Valid()
      modifies table
      ensures table.Valid()
      ensures table.symbols == WithAll(old(table.symbols), syms)
      ensures |keys| == |syms| && KeysOf(table.symbols, syms, keys)
    {
      keys := [];
      var i := 0;
      while i < |syms|
        invariant 0 <= i <= |syms| && |keys| == i
        invariant table.Valid()
        invariant table.symbols == WithAll(old(table.symbols), syms[..i])
        invariant KeysOf(table.symbols, syms, keys)
      {
        ghost var before := table.symbols;
        var k := Register(table, syms[i]);
        WithAllPrefix(old(table.symbols), syms, i, syms[i]);
        KeysOfStep(before, syms, keys, k);
        keys := keys + [k];
        i := i + 1;
      }
      assert syms[..i] == syms;
    }

    /** Find a symbol and add it when missing. */
    static method Register(table: SymbolTable, s: string) returns (k: int)
      requires table.Valid()
      modifies table
      ensures table.Valid()
      ensures table.symbols == Step(old(table.symbols), s)
      ensures KeyOf(table.symbols, s, k)
    {
      k := table.Find(s);
      if k == -1 {
        k := table.AddSymbol(s);
      }
    }
  }

  /** Registering twice adds nothing the second time. */
  lemma RegisterTwice(t: seq<string>, reserved: seq<string>)
    ensures WithAll(WithAll(t, reserved), reserved) == WithAll(t, reserved)
  {
    WithAllSpec(t, reserved);
    WithAllSpec(WithAll(t, reserved), reserved);
  }
}
