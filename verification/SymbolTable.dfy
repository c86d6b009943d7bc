/** npr/symbol.c and npr/symbol.h: strings interned in a fixed table of 173 chains. */
module SymbolTable {
  import opened Words

  type Bytes = seq<bv8>

  const NUM_BACKETS := 173

  // ---------------------------------------------------------------- the hash

  const FNV_32_PRIME := 0x01000193
  const FNV1_32A_INIT: Word32 := 0x811c9dc5

  /** `(unsigned int)c` for a signed `char`. */
  function Widen(c: bv8): bv32 {
    if c >= 0x80 then 0xffff_ff00 | (c as bv32) else c as bv32
  }

  function Bits(h: Word32): bv32 {
    h as bv32
  }

  function Number(b: bv32): Word32 {
    b as int
  }

  function Xor(h: Word32, x: bv32): Word32 {
    Number(Bits(h) ^ x)
  }

  /** The multiplication by the prime, in 32 bits. */
  function Times(h: Word32): Word32 {
    ToWord32(h * FNV_32_PRIME)
  }

  /** `npr_symbol_hash_push`. */
  function HashPush(h: Word32, c: bv8): Word32 {
    Times(Xor(h, Widen(c)))
  }

  function HashFrom(h: Word32, str: Bytes): Word32
    decreases |str|
  {
    if str == [] then h else HashFrom(HashPush(h, str[0]), str[1..])
  }

  function Hash(str: Bytes): Word32 {
    HashFrom(FNV1_32A_INIT, str)
  }

  /** FNV-1a as published: every octet is taken as unsigned. */
  function Fnv1a(h: Word32, str: Bytes): Word32
    decreases |str|
  {
    if str == [] then h else Fnv1a(Times(Xor(h, str[0] as bv32)), str[1..])
  }

  /** The prime is odd, so multiplying by it loses nothing. */
  lemma TimesIsInjective(x: Word32, y: Word32)
    requires Times(x) == Times(y)
    ensures x == y
  {
    TimesInverse(x);
    TimesInverse(y);
  }

  lemma TimesInverse(x: Word32)
    ensures ToWord32(Times(x) * 0x359c449b) == x
  {
    var q := (x * 0x01000193) / 0x1_0000_0000;
    var t := x * 0x01000193 - q * 0x1_0000_0000;
    assert Times(x) == t;
    var k := x * 0x359c99 - q * 0x359c449b;
    assert t * 0x359c449b == x + k * 0x1_0000_0000;
    AddMultiple(x, k);
  }

  /** One step is the published one exactly for the octets below 128. */
  lemma StepIsFnv1a(h: Word32, c: bv8)
    ensures HashPush(h, c) == Times(Xor(h, c as bv32)) <==> c < 0x80
  {
    WidenDiffers(h, c);
    if HashPush(h, c) == Times(Xor(h, c as bv32)) {
      TimesIsInjective(Xor(h, Widen(c)), Xor(h, c as bv32));
    }
  }

  lemma WidenDiffers(h: Word32, c: bv8)
    ensures Xor(h, Widen(c)) == Xor(h, c as bv32) <==> c < 0x80
  {
    XorIsInjective(h, Widen(c), c as bv32);
    WidenIsSigned(c);
    hide *;
  }

  lemma WidenIsSigned(c: bv8)
    ensures Widen(c) == c as bv32 <==> c < 0x80
  {
  }

  lemma XorIsInjective(h: Word32, x: bv32, y: bv32)
    ensures Xor(h, x) == Xor(h, y) <==> x == y
  {
    hide *;
    if Xor(h, x) == Xor(h, y) {
      XorIsNumber(h, x);
      XorIsNumber(h, y);
      NumberIsInjective(Bits(h) ^ x, Bits(h) ^ y);
      XorCancels(Bits(h), x, y);
    }
  }

  lemma XorIsNumber(h: Word32, x: bv32)
    ensures Xor(h, x) == Number(Bits(h) ^ x)
  {
    hide Bits, Number;
  }

  lemma XorCancels(b: bv32, x: bv32, y: bv32)
    ensures b ^ x == b ^ y <==> x == y
  {
  }

  lemma NumberIsInjective(a: bv32, b: bv32)
    ensures Number(a) == Number(b) ==> a == b
  {
    BackToBits(a);
    BackToBits(b);
    hide Number;
  }

  lemma BackToBits(b: bv32)
    ensures Number(b) as bv32 == b
  {
  }

  /** On strings of 7-bit characters the hash is FNV-1a. */
  lemma {:induction false} HashIsFnv1a(h: Word32, str: Bytes)
    requires forall i :: 0 <= i < |str| ==> str[i] < 0x80
    ensures HashFrom(h, str) == Fnv1a(h, str)
    decreases |str|
  {
    if str != [] {
      StepIsFnv1a(h, str[0]);
      HashIsFnv1a(HashPush(h, str[0]), str[1..]);
    }
  }

  /** So it is on whole strings, from the published start 0x811c9dc5. */
  lemma StringHashIsFnv1a(str: Bytes)
    requires forall i :: 0 <= i < |str| ==> str[i] < 0x80
    ensures Hash(str) == Fnv1a(0x811c_9dc5, str)
  {
    HashIsFnv1a(FNV1_32A_INIT, str);
  }

  /** The published value for the string "a". */
  lemma HashOfA()
    ensures Hash([0x61]) == 0xe40c_292c && Hash([]) == 0x811c_9dc5
  {
    assert Xor(0x811c_9dc5, 0x61) == 0x811c_9da4;
    assert Times(0x811c_9da4) == 0xe40c_292c;
    assert [0x61 as bv8][1..] == [];
  }

  /** `hash`. */
  method HashBytes(str: Bytes) returns (hval: Word32)
    ensures hval == Hash(str)
  {
    var h := FNV1_32A_INIT;
    var i := 0;
    while i < |str|
      invariant 0 <= i <= |str|
      invariant HashFrom(FNV1_32A_INIT, str) == HashFrom(h, str[i..])
    {
      assert str[i..][1..] == str[i + 1..];
      h := HashPush(h, str[i]);
      i := i + 1;
    }
    hval := h;
  }

  // ---------------------------------------------------------------- symbols and buckets

  /** A symbol is its identity; bytes and hash code are written once, when it is made. */
  class Symbol {
    const str: Bytes
    const hashcode: Word32

    constructor (str: Bytes, hashcode: Word32)
      ensures this.str == str && this.hashcode == hashcode
    {
      this.str, this.hashcode := str, hashcode;
    }
  }

  /** A chain: links are written when a backet is made and never change. */
  datatype Chain = Nil | Cons(value: Symbol, chain: Chain)

  function Members(c: Chain): set<Symbol> {
    if c.Nil? then {} else {c.value} + Members(c.chain)
  }

  /** No two symbols of the chain have the same bytes. */
  ghost predicate DistinctBytes(c: Chain) {
    forall s1 <- Members(c), s2 <- Members(c) :: s1.str == s2.str ==> s1 == s2
  }

  class InternTable {
    const backets: array<Chain>

    /** Every symbol is in the chain its hash code selects, and no chain holds the same bytes twice. */
    ghost predicate Valid()
      reads this, backets
    {
      && backets.Length == NUM_BACKETS
      && forall h :: 0 <= h < NUM_BACKETS ==>
           && DistinctBytes(backets[h])
           && forall s <- Members(backets[h]) :: s.hashcode % NUM_BACKETS == h
    }

    /** Every symbol was interned under the hash of its own bytes. */
    ghost predicate Hashed()
      reads this, backets
    {
      && backets.Length == NUM_BACKETS
      && forall h :: 0 <= h < NUM_BACKETS ==> forall s <- Members(backets[h]) :: s.hashcode == Hash(s.str)
    }

    /** The symbol is in its chain. */
    ghost predicate Has(s: Symbol)
      reads this, backets
    {
      backets.Length == NUM_BACKETS && s in Members(backets[s.hashcode % NUM_BACKETS])
    }

    constructor ()
      ensures Valid() && Hashed() && fresh(backets)
      ensures forall s: Symbol :: !Has(s)
    {
      backets := new Chain[NUM_BACKETS](_ => Nil);
    }

    /** `npr_intern_with_hash`: the symbol with these bytes in the chain `hval` selects, made and
        put in front when there is none. Nothing is ever removed. */
    method InternWithHash(str: Bytes, hval: Word32) returns (sym: Symbol)
      requires Valid()
      modifies backets
      ensures Valid() && Has(sym) && sym.str == str && sym.hashcode % NUM_BACKETS == hval % NUM_BACKETS
      ensures var h := hval % NUM_BACKETS;
              if exists s <- old(Members(backets[h])) :: s.str == str
              then sym in old(Members(backets[h])) && backets[..] == old(backets[..])
              else fresh(sym) && sym.hashcode == hval
                   && backets[..] == old(backets[..])[h := Cons(sym, old(backets[h]))]
    {
      var h := hval % NUM_BACKETS;
      var chain := backets[h];
      while chain.Cons?
        invariant Members(chain) <= Members(backets[h])
        invariant forall s <- Members(backets[h]) :: s.str == str ==> s in Members(chain)
        decreases chain
      {
        if chain.value.str == str {
          return chain.value;
        }
        chain := chain.chain;
      }
      sym := new Symbol(str, hval);
      backets[h] := Cons(sym, backets[h]);
    }

    /** `npr_intern_with_length`: one symbol per byte string. */
    method InternWithLength(str: Bytes) returns (sym: Symbol)
      requires Valid() && Hashed()
      modifies backets
      ensures Valid() && Hashed() && Has(sym) && sym.str == str
      ensures forall s: Symbol :: old(allocated(s)) && old(Has(s)) ==> Has(s)
      ensures (exists s: Symbol :: old(allocated(s)) && old(Has(s)) && s.str == str) <==> !fresh(sym)
    {
      var hval := HashBytes(str);
      sym := InternWithHash(str, hval);
    }

    /** Interned symbols and byte strings determine each other. */
    lemma SymbolsAreTheirBytes(s1: Symbol, s2: Symbol)
      requires Valid() && Hashed() && Has(s1) && Has(s2)
      ensures s1 == s2 <==> s1.str == s2.str
    {
      assert s1.hashcode == Hash(s1.str) && s2.hashcode == Hash(s2.str);
    }

    /** Any sequence of interns, on any table built by interning: two results are the same symbol
        exactly when their strings are equal, and symbols handed out earlier are still the ones. */
    method InternAll(strs: seq<Bytes>) returns (syms: seq<Symbol>)
      requires Valid() && Hashed()
      modifies backets
      ensures Valid() && Hashed() && |syms| == |strs|
      ensures forall i :: 0 <= i < |syms| ==> Has(syms[i]) && syms[i].str == strs[i]
      ensures forall i, j :: 0 <= i < |strs| && 0 <= j < |strs| ==> (syms[i] == syms[j] <==> strs[i] == strs[j])
      ensures forall s: Symbol :: old(allocated(s)) && old(Has(s)) ==> Has(s)
    {
      syms := [];
      while |syms| < |strs|
        invariant Valid() && Hashed() && |syms| <= |strs|
        invariant forall i :: 0 <= i < |syms| ==> Has(syms[i]) && syms[i].str == strs[i]
        invariant forall s: Symbol :: old(allocated(s)) && old(Has(s)) ==> Has(s)
      {
        var sym := InternWithLength(strs[|syms|]);
        syms := syms + [sym];
      }
      forall i, j | 0 <= i < |strs| && 0 <= j < |strs| ensures syms[i] == syms[j] <==> strs[i] == strs[j] {
        SymbolsAreTheirBytes(syms[i], syms[j]);
      }
    }

    /** With hashes supplied by the caller, over any sequence of interns and from any table, two
        results are the same symbol exactly when the strings are equal and the hashes select the
        same chain. So it takes hashes that are equal, at least modulo the number of chains, for
        equal strings to get one symbol per string. Symbols handed out earlier are still the ones. */
    method InternAllWithHashes(strs: seq<Bytes>, hvals: seq<Word32>) returns (syms: seq<Symbol>)
      requires Valid() && |strs| == |hvals|
      modifies backets
      ensures Valid() && |syms| == |strs|
      ensures forall i :: 0 <= i < |syms| ==> HasFor(syms[i], strs[i], hvals[i])
      ensures forall i, j :: 0 <= i < |strs| && 0 <= j < |strs| ==>
                (syms[i] == syms[j] <==> strs[i] == strs[j] && hvals[i] % 173 == hvals[j] % 173)
      ensures Consistent(strs, hvals) <==>
              forall i, j :: 0 <= i < |strs| && 0 <= j < |strs| ==> (syms[i] == syms[j] <==> strs[i] == strs[j])
      ensures forall s: Symbol :: old(allocated(s)) && old(Has(s)) ==> Has(s)
    {
      syms := [];
      while |syms| < |strs|
        invariant Valid() && |syms| <= |strs|
        invariant forall i :: 0 <= i < |syms| ==> HasFor(syms[i], strs[i], hvals[i])
        invariant forall s: Symbol :: old(allocated(s)) && old(Has(s)) ==> Has(s)
      {
        var sym := InternWithHash(strs[|syms|], hvals[|syms|]);
        syms := syms + [sym];
      }
      forall i, j | 0 <= i < |strs| && 0 <= j < |strs|
        ensures syms[i] == syms[j] <==> strs[i] == strs[j] && hvals[i] % NUM_BACKETS == hvals[j] % NUM_BACKETS
      {
        OneSymbolEach(syms[i], strs[i], hvals[i], syms[j], strs[j], hvals[j]);
      }
    }

    /** `sym` is the table's symbol for a string interned with a hash. */
    ghost predicate HasFor(sym: Symbol, str: Bytes, hval: Word32)
      reads this, backets
    {
      Has(sym) && sym.str == str && sym.hashcode % NUM_BACKETS == hval % NUM_BACKETS
    }

    lemma OneSymbolEach(s1: Symbol, str1: Bytes, hval1: Word32, s2: Symbol, str2: Bytes, hval2: Word32)
      requires Valid() && HasFor(s1, str1, hval1) && HasFor(s2, str2, hval2)
      ensures s1 == s2 <==> str1 == str2 && hval1 % NUM_BACKETS == hval2 % NUM_BACKETS
    {
    }
  }

  /** Equal strings come with hashes that select the same chain. */
  predicate Consistent(strs: seq<Bytes>, hvals: seq<Word32>)
    requires |strs| == |hvals|
  {
    forall i, j :: 0 <= i < |strs| && 0 <= j < |strs| && strs[i] == strs[j] ==>
      hvals[i] % NUM_BACKETS == hvals[j] % NUM_BACKETS
  }
}
