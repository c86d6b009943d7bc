/** anytrace/atr-language-module.c: language modules name the function symbols they hook; the
    last registration that names a symbol gets it. */
module LanguageModule {
  import opened Words
  import opened SymbolTable
  import opened IntMap

  /** What `ATR_register_language` copies of a module. */
  datatype Language = Language(flags: int, names: seq<Symbol>, args: seq<int>)

  /** `struct int_pair`: a registered module and the place of a symbol in its list. */
  datatype IntPair = IntPair(mod: nat, sym: nat)

  /** The last place of `sym` in a list of names. */
  function LastIndex(names: seq<Symbol>, sym: Symbol): (r: Option<nat>)
    ensures r.Some? ==> r.value < |names| && names[r.value] == sym
    ensures forall i :: 0 <= i < |names| && names[i] == sym ==> r.Some? && i <= r.value
  {
    if names == [] then None
    else if names[|names| - 1] == sym then Some(|names| - 1)
    else LastIndex(names[..|names| - 1], sym)
  }

  /** The last naming of `sym` in the registrations so far: latest module first, and in it the
      latest place. */
  function LastNaming(history: seq<seq<Symbol>>, sym: Symbol): (r: Option<IntPair>)
    ensures r.Some? ==> r.value.mod < |history| && r.value.sym < |history[r.value.mod]|
    ensures r.Some? ==> history[r.value.mod][r.value.sym] == sym
    ensures forall m, i :: 0 <= m < |history| && 0 <= i < |history[m]| && history[m][i] == sym ==>
              r.Some? && (m < r.value.mod || (m == r.value.mod && i <= r.value.sym))
  {
    if history == [] then None
    else
      var last := |history| - 1;
      var i := LastIndex(history[last], sym);
      if i.Some? then Some(IntPair(last, i.value)) else LastNaming(history[..last], sym)
  }

  /** Naming one more symbol in the newest module makes that the last naming of it, and of it alone. */
  lemma NamingOneMore(history: seq<seq<Symbol>>, names: seq<Symbol>, sym: Symbol, other: Symbol)
    ensures LastNaming(history + [names + [sym]], other) ==
            if other == sym then Some(IntPair(|history|, |names|)) else LastNaming(history + [names], other)
  {
    var longer := names + [sym];
    assert longer[..|names|] == names;
    assert (history + [longer])[..|history|] == history == (history + [names])[..|history|];
  }

  lemma NamingNothing(history: seq<seq<Symbol>>, other: Symbol)
    ensures LastNaming(history + [[]], other) == LastNaming(history, other)
  {
    assert (history + [[]])[..|history|] == history;
  }

  /** The name lists of the modules registered so far. */
  function NamesOf(history: seq<Language>): (names: seq<seq<Symbol>>)
    ensures |names| == |history|
    ensures forall m :: 0 <= m < |history| ==> names[m] == history[m].names
  {
    seq(|history|, m requires 0 <= m < |history| => history[m].names)
  }

  lemma NamesOfOneMore(history: seq<Language>, mod: Language)
    ensures NamesOf(history + [mod]) == NamesOf(history) + [mod.names]
  {
  }

  /** Every registered module has an argument for each of its names. */
  predicate Complete(history: seq<Language>) {
    forall m :: 0 <= m < |history| ==> |history[m].args| == |history[m].names|
  }

  /** The module and argument that the registrations select for a symbol. */
  function HookOf(history: seq<Language>, func: Symbol): Option<(Language, int)>
    requires Complete(history)
  {
    var naming := LastNaming(NamesOf(history), func);
    if naming.None? then None
    else Some((history[naming.value.mod], history[naming.value.mod].args[naming.value.sym]))
  }

  /** `found` is what the registrations promise a function: nothing when no module names it, and
      otherwise the module and the argument at the place of the last naming: no later module, and
      no later place in the same one, names it again. */
  ghost predicate IsLastRegistered(mods: seq<Language>, func: Symbol, found: Option<(Language, int)>) {
    if forall m, k :: 0 <= m < |mods| && 0 <= k < |mods[m].names| ==> mods[m].names[k] != func then found == None
    else exists m, k ::
           && 0 <= m < |mods| && 0 <= k < |mods[m].names| && k < |mods[m].args| && mods[m].names[k] == func
           && (forall m', k' :: 0 <= m' < |mods| && 0 <= k' < |mods[m'].names| && mods[m'].names[k'] == func ==>
                 m' < m || (m' == m && k' <= k))
           && found == Some((mods[m], mods[m].args[k]))
  }

  lemma HookIsLastRegistered(mods: seq<Language>, func: Symbol)
    requires Complete(mods)
    ensures IsLastRegistered(mods, func, HookOf(mods, func))
  {
    var history := NamesOf(mods);
    var naming := LastNaming(history, func);
    if naming.Some? {
      var m, k := naming.value.mod, naming.value.sym;
      assert mods[m].names[k] == history[m][k] == func;
      forall m', k' | 0 <= m' < |mods| && 0 <= k' < |mods[m'].names| && mods[m'].names[k'] == func
        ensures m' < m || (m' == m && k' <= k)
      {
        assert history[m'][k'] == func;
      }
    } else {
      forall m, k | 0 <= m < |mods| && 0 <= k < |mods[m].names| ensures mods[m].names[k] != func {
        assert history[m][k] == mods[m].names[k];
      }
    }
  }

  function TotalNames(mods: seq<Language>): nat {
    if mods == [] then 0 else |mods[0].names| + TotalNames(mods[1..])
  }

  class Registry {
    const hooks: Symtab<IntPair>
    var capLanguage: int
    var numLanguage: int
    var languages: array<Option<Language>>
    ghost var history: seq<Language>

    /** The hook table maps exactly the named symbols, each to its last naming. */
    ghost predicate Hooked(h: seq<seq<Symbol>>)
      reads hooks, hooks.cells
    {
      && (forall e <- hooks.cells :: e.data == LastNaming(h, e.sym) && e.data.Some?)
      && (forall m, i :: 0 <= m < |h| && 0 <= i < |h[m]| ==> HasCell(h[m][i]))
    }

    ghost predicate HasCell(sym: Symbol)
      reads hooks, hooks.cells
    {
      exists e <- hooks.cells :: e.sym == sym
    }

    /** The array holds every registered module, as it was registered. */
    ghost predicate Stored()
      reads this, languages
    {
      && 0 < capLanguage == languages.Length && numLanguage == |history| <= capLanguage
      && Complete(history)
      && forall p :: 0 <= p < |history| ==> languages[p] == Some(history[p])
    }

    ghost predicate Valid()
      reads this, languages, hooks, hooks.entries, hooks.cells
    {
      hooks.Valid() && Hooked(NamesOf(history)) && Stored()
    }

    constructor ()
      ensures Valid() && history == []
      ensures fresh(hooks) && fresh(languages) && fresh(hooks.entries) && hooks.cells == {} && hooks.numEntry == 0
      ensures hooks.numBin == 37 && languages.Length == 1
    {
      capLanguage, numLanguage := 1, 0;
      languages := new Option<Language>[1](_ => None);
      hooks := new Symtab(16);
      history := [];
      new;
      ghost var i: nat :| IsSizeFor(16, i) && hooks.numBin == PRIMES[i];
      SizesInNumbers(i);
    }

    /** `ATR_register_language`. A symbol the module names twice belongs to its later place; one
        that other modules named before is taken over. Modules registered before stay as they were. */
    method RegisterLanguage(mod: Language)
      requires Valid() && |mod.args| == |mod.names|
      requires hooks.numEntry + |mod.names| <= 0x7fff_ffff
      modifies this, languages, hooks, hooks.entries, hooks.cells
      ensures Valid() && history == old(history) + [mod]
      ensures hooks.numEntry <= old(hooks.numEntry) + |mod.names|
      ensures (fresh(languages) || languages == old(languages)) && (fresh(hooks.entries) || hooks.entries == old(hooks.entries))
      ensures forall e <- hooks.cells :: e in old(hooks.cells) || fresh(e)
    {
      NamesOfOneMore(history, mod);
      hide *;
      assert hooks.Valid() && Hooked(NamesOf(history)) && Stored() by { ValidParts(); }
      var pos := AddLanguage(mod);
      HookNames(mod.names, pos, NamesOf(history));
      history := history + [mod];
      assert history[..|history| - 1] == old(history);
      AllStored(mod);
      ValidWhole();
    }

    lemma ValidParts()
      requires Valid()
      ensures hooks.Valid() && Hooked(NamesOf(history)) && Stored()
    {
    }

    lemma ValidWhole()
      requires hooks.Valid() && Hooked(NamesOf(history)) && Stored()
      ensures Valid()
    {
    }

    lemma AllStored(mod: Language)
      requires history != [] && history[|history| - 1] == mod && Added(history[..|history| - 1], mod)
      ensures Stored()
    {
    }

    /** The array holds the modules `before` and, behind them, `mod`. */
    ghost predicate Added(before: seq<Language>, mod: Language)
      reads `numLanguage, `capLanguage, `languages, languages
    {
      && numLanguage == |before| + 1 <= capLanguage == languages.Length
      && Complete(before) && |mod.args| == |mod.names|
      && languages[|before|] == Some(mod)
      && forall p :: 0 <= p < |before| ==> languages[p] == Some(before[p])
    }

    /** Growing the array, by doubling, and copying the module into it. */
    method AddLanguage(mod: Language) returns (pos: nat)
      requires Stored() && |mod.args| == |mod.names|
      modifies this`capLanguage, this`numLanguage, this`languages, languages
      ensures pos == |history| && Added(history, mod)
      ensures fresh(languages) || languages == old(languages)
    {
      if numLanguage >= capLanguage {
        capLanguage := capLanguage * 2;
        var old_ := languages;
        languages := new Option<Language>[capLanguage](i reads old_ => if 0 <= i < old_.Length then old_[i] else None);
      }
      pos := numLanguage;
      languages[pos] := Some(mod);
      numLanguage := numLanguage + 1;
    }

    /** The loop over the names; `h` are the name lists registered before. */
    method HookNames(names: seq<Symbol>, pos: nat, ghost h: seq<seq<Symbol>>)
      requires hooks.Valid() && Hooked(h) && pos == |h|
      requires hooks.numEntry + |names| <= 0x7fff_ffff
      modifies hooks, hooks.entries, hooks.cells
      ensures hooks.Valid() && Hooked(h + [names]) && hooks.numEntry <= old(hooks.numEntry) + |names|
      ensures fresh(hooks.entries) || hooks.entries == old(hooks.entries)
      ensures forall e <- hooks.cells :: e in old(hooks.cells) || fresh(e)
    {
      hide *;
      StillHooked(h);
      var li := 0;
      assert names[..0] == [];
      while li < |names|
        invariant 0 <= li <= |names|
        invariant hooks.Valid() && Hooked(h + [names[..li]]) && hooks.numEntry <= old(hooks.numEntry) + li
        invariant fresh(hooks.entries) || hooks.entries == old(hooks.entries)
        invariant forall e <- hooks.cells :: e in old(hooks.cells) || fresh(e)
      {
        HookOne(names[li], IntPair(pos, li), h, names[..li]);
        li := li + 1;
        assert names[..li] == names[..li - 1] + [names[li - 1]];
      }
      assert names[..li] == names;
    }

    lemma StillHooked(h: seq<seq<Symbol>>)
      requires Hooked(h)
      ensures Hooked(h + [[]])
    {
      forall e <- hooks.cells ensures LastNaming(h + [[]], e.sym) == LastNaming(h, e.sym) {
        NamingNothing(h, e.sym);
      }
      ghost var now := h + [[]];
      forall m, i | 0 <= m < |now| && 0 <= i < |now[m]| ensures HasCell(now[m][i]) {
        assert m < |h| && now[m][i] == h[m][i];
      }
    }

    /** The cell of a symbol, made if there is none, gets the pair; no other cell's data changes. */
    method PutPair(sym: Symbol, pair: IntPair) returns (ghost cell: Entry<IntPair>)
      requires hooks.Valid() && hooks.numEntry < 0x7fff_ffff
      modifies hooks, hooks.entries, hooks.cells
      ensures hooks.Valid() && hooks.numEntry <= old(hooks.numEntry) + 1
      ensures fresh(hooks.entries) || hooks.entries == old(hooks.entries)
      ensures cell in hooks.cells && cell.sym == sym && cell.data == Some(pair)
      ensures old(hooks.cells) <= hooks.cells
      ensures forall e <- hooks.cells :: e == cell || (e in old(hooks.cells) && e.sym != sym && e.data == old(e.data))
      ensures cell in old(hooks.cells) || fresh(cell)
    {
      hide Partition, Chains;
      var e := hooks.Lookup(sym, Append);
      hooks.SetData(e, pair);
      cell := e;
    }

    /** One round of the loop. */
    method HookOne(sym: Symbol, pair: IntPair, ghost h: seq<seq<Symbol>>, ghost prefix: seq<Symbol>)
      requires hooks.Valid() && Hooked(h + [prefix]) && pair == IntPair(|h|, |prefix|)
      requires hooks.numEntry < 0x7fff_ffff
      modifies hooks, hooks.entries, hooks.cells
      ensures hooks.Valid() && Hooked(h + [prefix + [sym]]) && hooks.numEntry <= old(hooks.numEntry) + 1
      ensures fresh(hooks.entries) || hooks.entries == old(hooks.entries)
      ensures forall e <- hooks.cells :: e in old(hooks.cells) || fresh(e)
    {
      hide LastNaming, Partition, Chains, Symtab.Valid;
      ghost var e := PutPair(sym, pair);
      ghost var was, now := h + [prefix], h + [prefix + [sym]];
      forall c <- hooks.cells ensures c.data == LastNaming(now, c.sym) && c.data.Some? {
        NamingOneMore(h, prefix, sym, c.sym);
      }
      forall m, i | 0 <= m < |now| && 0 <= i < |now[m]| ensures HasCell(now[m][i]) {
        if m == |h| && i == |prefix| {
          assert now[m][i] == e.sym;
        } else {
          assert now[m][i] == was[m][i] && old(HasCell(was[m][i]));
        }
      }
    }

    /** What a lookup found, or did not find, is the last naming. */
    lemma FoundIsLastNaming(h: seq<seq<Symbol>>, func: Symbol, entry: Entry?<IntPair>)
      requires Hooked(h)
      requires if entry == null then !HasCell(func) else entry in hooks.cells && entry.sym == func
      ensures LastNaming(h, func) == if entry == null then None else entry.data
      ensures entry != null ==> entry.data.Some? && entry.data.value.mod < |h| && entry.data.value.sym < |h[entry.data.value.mod]|
    {
      var naming := LastNaming(h, func);
      if naming.Some? {
        assert HasCell(h[naming.value.mod][naming.value.sym]);
      }
    }

    /** `npr_symtab_lookup_entry` as the hook runner calls it. */
    method FindEntry(func: Symbol) returns (entry: Entry?<IntPair>)
      requires hooks.Valid()
      modifies hooks, hooks.entries, hooks.cells`chain
      ensures hooks.Valid() && hooks.cells == old(hooks.cells) && hooks.entries == old(hooks.entries)
      ensures hooks.numEntry <= old(hooks.numEntry) + 1
      ensures if entry == null then !HasCell(func) else entry in hooks.cells && entry.sym == func
    {
      hide Partition, Chains;
      entry := hooks.Lookup(func, Fail);
    }

    /** The lookup in `ATR_run_language_hook`: the module to call and its registered argument, those
        of the last registration that names the symbol. */
    method FindHook(func: Symbol) returns (r: Option<(Language, int)>)
      requires Valid()
      modifies hooks, hooks.entries, hooks.cells
      ensures Valid() && history == old(history) && hooks.cells == old(hooks.cells) && hooks.entries == old(hooks.entries)
      ensures r == HookOf(history, func) && IsLastRegistered(history, func, r)
    {
      hide LastNaming, Partition, Chains, NamesOf, Symtab.Valid;
      ghost var h := NamesOf(history);
      assert Complete(history);
      HookIsLastRegistered(history, func);
      hide IsLastRegistered;
      var entry := FindEntry(func);
      assert Hooked(h);
      FoundIsLastNaming(h, func, entry);
      if entry == null {
        return None;
      }
      var idx := entry.data.value;
      var lang := languages[idx.mod].value;
      return Some((lang, lang.args[idx.sym]));
    }

    /** Any sequence of registrations. */
    method RegisterAll(mods: seq<Language>)
      requires Valid() && Complete(mods)
      requires hooks.numEntry + TotalNames(mods) <= 0x7fff_ffff
      modifies this, languages, hooks, hooks.entries, hooks.cells
      ensures Valid() && history == old(history) + mods
      ensures (fresh(languages) || languages == old(languages)) && (fresh(hooks.entries) || hooks.entries == old(hooks.entries))
      ensures forall e <- hooks.cells :: e in old(hooks.cells) || fresh(e)
    {
      hide Valid, TotalNames;
      var n := 0;
      assert mods[0..] == mods;
      while n < |mods|
        invariant 0 <= n <= |mods| && Valid() && history == old(history) + mods[..n]
        invariant hooks.numEntry + TotalNames(mods[n..]) <= 0x7fff_ffff
        invariant fresh(languages) || languages == old(languages)
        invariant fresh(hooks.entries) || hooks.entries == old(hooks.entries)
        invariant forall e <- hooks.cells :: e in old(hooks.cells) || fresh(e)
      {
        NextModule(mods, n);
        RegisterLanguage(mods[n]);
        n := n + 1;
      }
      assert mods[..n] == mods;
    }
  }

  lemma NextModule(mods: seq<Language>, n: nat)
    requires n < |mods|
    ensures TotalNames(mods[n..]) == |mods[n].names| + TotalNames(mods[n + 1..])
    ensures mods[..n + 1] == mods[..n] + [mods[n]]
  {
    assert mods[n..][1..] == mods[n + 1..];
  }

  /** A whole life of the registry: whatever was registered, in whatever order, each lookup gives
      what the registrations alone select. */
  method RegisterAndFind(mods: seq<Language>, funcs: seq<Symbol>) returns (found: seq<Option<(Language, int)>>)
    requires Complete(mods) && TotalNames(mods) <= 0x7fff_ffff
    ensures |found| == |funcs| && forall i :: 0 <= i < |funcs| ==> IsLastRegistered(mods, funcs[i], found[i])
  {
    hide HookOf, IsLastRegistered, TotalNames, Registry.Valid;
    var registry := new Registry();
    registry.RegisterAll(mods);
    assert registry.history == mods;
    found := [];
    while |found| < |funcs|
      invariant |found| <= |funcs| && registry.Valid() && registry.history == mods
      invariant forall i :: 0 <= i < |found| ==> IsLastRegistered(mods, funcs[i], found[i])
      invariant fresh(registry) && fresh(registry.hooks) && fresh(registry.hooks.entries) && fresh(registry.hooks.cells)
    {
      var r := registry.FindHook(funcs[|found|]);
      found := found + [r];
    }
  }
}
