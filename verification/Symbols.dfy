/** The symbol table (runtime/Clib/csymbol.c) and its hash functions (runtime/Clib/chash.c). */
module Symbols {
  import opened Common
  import opened Bytes
  import opened IntegerText

  const SHIFT := 12
  const SIZE := 4096

  // ---------------------------------------------------------------------
  // Hashing
  // ---------------------------------------------------------------------

  /** A byte as a signed char. */
  function SignedChar(c: byte): (v: int)
    ensures -128 <= v < 128 && v % 256 == c
  {
    if c < 128 then c else (c as int) - 256
  }

  /** One byte into the accumulator, an unsigned word. */
  function HashStep(result: int, c: byte): int {
    (result + result * 8 + SignedChar(c)) % WORD
  }

  function HashWord(s: seq<byte>): int {
    if s == [] then 0 else HashStep(HashWord(s[..|s| - 1]), s[|s| - 1])
  }

  function Pow9(n: nat): nat {
    if n == 0 then 1 else 9 * Pow9(n - 1)
  }

  /** The bytes of a name, signed, as the digits of a number in base nine. */
  function Nines(s: seq<byte>): int {
    if s == [] then 0 else SignedChar(s[0]) * Pow9(|s| - 1) + Nines(s[1..])
  }

  lemma {:induction false} NinesSnoc(s: seq<byte>, c: byte)
    ensures Nines(s + [c]) == 9 * Nines(s) + SignedChar(c)
  {
    if s == [] {
      assert [] + [c] == [c] && [c][1..] == [];
    } else {
      assert (s + [c])[1..] == s[1..] + [c];
      NinesSnoc(s[1..], c);
      NineTimes(SignedChar(s[0]), Pow9(|s| - 1));
    }
  }

  lemma NineTimes(a: int, p: int)
    ensures a * (9 * p) == 9 * (a * p)
  {}

  /** The accumulator of the hash functions: that number, modulo the word. */
  lemma {:induction false} HashIsNines(s: seq<byte>)
    ensures HashWord(s) == Nines(s) % WORD
  {
    if s != [] {
      var n := |s| - 1;
      HashIsNines(s[..n]);
      assert s == s[..n] + [s[n]];
      NinesSnoc(s[..n], s[n]);
      ModStep(Nines(s[..n]), SignedChar(s[n]));
    }
  }

  lemma ModStep(a: int, c: int)
    ensures (a % WORD + a % WORD * 8 + c) % WORD == (9 * a + c) % WORD
  {
    var q := a / WORD;
    assert a == q * WORD + a % WORD;
    assert 9 * a + c == 9 * (a % WORD) + c + 9 * q * WORD;
  }

  /** The bucket of a name. */
  function Hash(s: seq<byte>): (h: nat)
    ensures h < SIZE
  {
    HashWord(s) % SIZE
  }

  /** The size of the table divides the word, so the bucket is the same number modulo the size. */
  lemma HashIsBucket(s: seq<byte>)
    ensures Hash(s) == Nines(s) % SIZE
  {
    HashIsNines(s);
    var q := Nines(s) / WORD;
    assert Nines(s) == q * WORD + HashWord(s) == (q * 0x10_0000_0000_0000) * SIZE + HashWord(s);
    ModSize(q * 0x10_0000_0000_0000, HashWord(s));
  }

  lemma ModSize(k: int, h: int)
    ensures (k * SIZE + h) % SIZE == h % SIZE
  {}

  /** get_hash_power_number_len. */
  method HashLen(s: seq<byte>) returns (h: nat)
    ensures h == Hash(s)
  {
    var result := 0;
    for i := 0 to |s|
      invariant result == HashWord(s[..i])
    {
      assert s[..i + 1][..i] == s[..i];
      result := HashStep(result, s[i]);
    }
    assert s[..|s|] == s;
    return result % SIZE;
  }

  /** The text before the first NUL. */
  function CName(s: seq<byte>): seq<byte> {
    if s == [] || s[0] == 0 then [] else [s[0]] + CName(s[1..])
  }

  lemma {:induction false} CNamePlain(s: seq<byte>)
    requires 0 !in s
    ensures CName(s) == s
  {
    if s != [] {
      CNamePlain(s[1..]);
      assert s == [s[0]] + s[1..];
    }
  }

  lemma {:induction false} CNamePrefix(s: seq<byte>, n: nat)
    requires n < |s| && s[n] == 0 && forall i | 0 <= i < n :: s[i] != 0
    ensures CName(s) == s[..n]
  {
    if n > 0 {
      CNamePrefix(s[1..], n - 1);
      assert s[..n] == [s[0]] + s[1..][..n - 1];
    }
  }

  /** get_hash_power_number, on a NUL-terminated string: it agrees with the other on names without NULs. */
  method HashCString(s: seq<byte>) returns (h: nat)
    requires 0 in s
    ensures h == Hash(CName(s))
  {
    var result, i := 0, 0;
    ghost var z :| 0 <= z < |s| && s[z] == 0;
    while s[i] != 0
      invariant i <= z
      invariant forall j | 0 <= j < i :: s[j] != 0
      invariant result == HashWord(s[..i])
      decreases |s| - i
    {
      assert s[..i + 1][..i] == s[..i];
      result := HashStep(result, s[i]);
      i := i + 1;
    }
    CNamePrefix(s, i);
    return result % SIZE;
  }

  // ---------------------------------------------------------------------
  // The table
  // ---------------------------------------------------------------------

  /** Gensym names: the base and a counter. */
  function Candidate(base: seq<byte>, k: nat): seq<byte> {
    base + Numeral(k, 10)
  }

  /** No more than 20 bytes of the base are used, the first. */
  function Cut(name: seq<byte>): (base: seq<byte>)
    ensures base <= name && |base| == Min(20, |name|)
  {
    if |name| > 20 then name[..20] else name
  }

  lemma CandidateInjective(base: seq<byte>, j: nat, k: nat)
    requires Candidate(base, j) == Candidate(base, k)
    ensures j == k
  {
    var a, b := Numeral(j, 10), Numeral(k, 10);
    assert a == Candidate(base, j)[|base|..] && b == Candidate(base, k)[|base|..];
    NumeralIsToken(j);
    NumeralIsToken(k);
  }

  /** The name of a symbol, None also for what is no symbol. */
  function NameIn(names: seq<Option<seq<byte>>>, s: nat): Option<seq<byte>> {
    if s < |names| then names[s] else None
  }

  /** The symbols of a bucket are those whose names hash to it, and no two symbols have the
      same name. */
  ghost predicate TableOk(names: seq<Option<seq<byte>>>, table: seq<seq<nat>>) {
    && |table| == SIZE
    && (forall b, s | 0 <= b < SIZE && s in table[b] :: NameIn(names, s).Some? && Hash(NameIn(names, s).value) == b)
    && (forall s: nat | NameIn(names, s).Some? :: s in table[Hash(NameIn(names, s).value)])
    && (forall s: nat, t: nat | NameIn(names, s).Some? && NameIn(names, s) == NameIn(names, t) :: s == t)
  }

  /** Entering symbol `s` under a name that no symbol has. */
  lemma Entered(names: seq<Option<seq<byte>>>, table: seq<seq<nat>>, names': seq<Option<seq<byte>>>,
                s: nat, name: seq<byte>, bucket: seq<nat>)
    requires TableOk(names, table)
    requires forall t: nat :: NameIn(names, t) != Some(name)
    requires NameIn(names, s).None? && NameIn(names', s) == Some(name)
    requires forall t: nat | t != s :: NameIn(names', t) == NameIn(names, t)
    requires forall t :: t in bucket <==> t in table[Hash(name)] || t == s
    ensures TableOk(names', table[Hash(name) := bucket])
  {}

  class Symtab {
    /** The name field of each symbol, None while a gensym has not been asked for its name. */
    var names: seq<Option<seq<byte>>>
    /** c_symtab: the symbols of each bucket, in list order. */
    var table: seq<seq<nat>>
    var gensymCounter: nat

    function Name(s: nat): Option<seq<byte>>
      reads this`names
    {
      NameIn(names, s)
    }

    ghost predicate Valid()
      reads this
    {
      TableOk(names, table)
    }

    constructor ()
      ensures Valid() && names == [] && gensymCounter == 999
    {
      names := [];
      table := seq(SIZE, _ => []);
      gensymCounter := 999;
    }

    /** The list search of bgl_bstring_to_symbol: the first symbol of the bucket that has this name.
        It would also stop at a symbol without a name, but the table has none. */
    method Search(bucket: seq<nat>, cname: seq<byte>) returns (found: Option<nat>)
      requires Valid() && Hash(cname) < |table| && bucket == table[Hash(cname)]
      ensures found.Some? ==> found.value in bucket && Name(found.value) == Some(cname)
      ensures found.None? ==> forall s | s in bucket :: Name(s) != Some(cname)
    {
      for run := 0 to |bucket|
        invariant forall i | 0 <= i < run :: Name(bucket[i]) != Some(cname)
      {
        assert bucket[run] in bucket;
        if Name(bucket[run]).None? || Name(bucket[run]) == Some(cname) {
          return Some(bucket[run]);
        }
      }
      return None;
    }

    /** bgl_bstring_to_symbol. */
    method Intern(cname: seq<byte>) returns (symbol: nat)
      requires Valid()
      modifies `names, `table
      ensures Valid() && symbol < |names| && Name(symbol) == Some(cname)
      ensures old(names) <= names && |names| <= |old(names)| + 1
      ensures |names| > |old(names)| ==> symbol == |old(names)|
    {
      hide Hash;
      var hashNumber := HashLen(cname);
      var found := Search(table[hashNumber], cname);
      if found.Some? {
        return found.value;
      }
      symbol := |names|;
      NobodyNamed(cname);
      Entered(names, table, names + [Some(cname)], symbol, cname, table[hashNumber] + [symbol]);
      names := names + [Some(cname)];
      table := table[hashNumber := table[hashNumber] + [symbol]];
    }

    lemma NobodyNamed(cname: seq<byte>)
      requires Valid()
      requires forall s | s in table[Hash(cname)] :: Name(s) != Some(cname)
      ensures forall s: nat :: Name(s) != Some(cname)
    {}

    /** symbol_exists_sans_lock_p: names are compared as C strings. */
    method Exists(name: seq<byte>, hashNumber: nat) returns (r: bool)
      requires Valid() && hashNumber < SIZE
      ensures r <==> exists s | s in table[hashNumber] :: NamedInC(s, name)
    {
      var bucket := table[hashNumber];
      for i := 0 to |bucket|
        invariant forall j | 0 <= j < i :: !NamedInC(bucket[j], name)
      {
        assert bucket[i] in bucket;
        if Name(bucket[i]).None? || CName(Name(bucket[i]).value) == name {
          return true;
        }
      }
      return false;
    }

    /** strcmp finds the name of `s` equal to `name`. */
    predicate NamedInC(s: nat, name: seq<byte>)
      reads this`names
    {
      Name(s).Some? && CName(Name(s).value) == name
    }

    /** symbol_exists_p: it finds the symbol of this name, and any symbol in the same bucket of which
        this is the name up to a NUL. */
    method SymbolExistsP(name: seq<byte>) returns (r: bool)
      requires Valid() && 0 !in name
      ensures r <==> exists s: nat :: NamedInC(s, name) && Hash(Name(s).value) == Hash(name)
      ensures (exists s: nat :: Name(s) == Some(name)) ==> r
      ensures r && (forall s: nat | Name(s).Some? :: 0 !in Name(s).value) ==> exists s: nat :: Name(s) == Some(name)
    {
      hide Hash;
      CNameOfBuffer(name);
      var hn := HashCString(name + [0]);
      r := Exists(name, hn);
      if s: nat :| Name(s) == Some(name) {
        assert NamedInC(s, name);
      }
      if r {
        var s :| s in table[hn] && NamedInC(s, name);
        if 0 !in Name(s).value { CNamePlain(Name(s).value); }
      }
    }

    /** The C names of the symbols that have one. */
    ghost function CNames(): set<seq<byte>>
      reads this
    {
      set s | 0 <= s < |names| && names[s].Some? :: CName(names[s].value)
    }

    /** Those of them that a later counter would lead to. */
    ghost function Ahead(base: seq<byte>, counter: nat): set<seq<byte>>
      reads this
    {
      set c | c in CNames() && exists k :: k > counter && c == Candidate(base, k)
    }

    lemma AheadShrinks(base: seq<byte>, k: nat)
      requires k > 0 && Candidate(base, k) in CNames()
      ensures Ahead(base, k) < Ahead(base, k - 1)
    {
      var c := Candidate(base, k);
      assert c in Ahead(base, k - 1);
      if c in Ahead(base, k) {
        var j :| j > k && c == Candidate(base, j);
        CandidateInjective(base, j, k);
      }
      assert c !in Ahead(base, k);
    }

    /** bgl_symbol_genname: the loop ends, and the symbol gets a name that no symbol has. */
    method Genname(o: nat, name: seq<byte>) returns (gn: seq<byte>)
      requires Valid() && o < |names| && names[o].None? && 0 !in name
      modifies `names, `table, `gensymCounter
      ensures Valid() && |names| == |old(names)| && names[o] == Some(gn)
      ensures forall s | 0 <= s < |names| && s != o :: names[s] == old(names)[s]
      ensures forall s: nat :: old(Name(s)) != Some(gn)
      ensures gensymCounter > old(gensymCounter) && gn == Candidate(Cut(name), gensymCounter)
    {
      hide Hash;
      var base := Cut(name);
      var hn;
      while true
        invariant gensymCounter >= old(gensymCounter)
        invariant Valid() && names == old(names) && table == old(table)
        decreases Ahead(base, gensymCounter)
      {
        gensymCounter := gensymCounter + 1;
        gn := Candidate(base, gensymCounter);
        NumeralIsToken(gensymCounter);
        CandidatePlain(base, gensymCounter);
        CNameOfBuffer(gn);
        hn := HashCString(gn + [0]);
        var exists_ := Exists(gn, hn);
        if !exists_ {
          break;
        }
        ghost var s :| s in table[hn] && NamedInC(s, gn);
        assert s < |names| && names[s].Some?;
        AheadShrinks(base, gensymCounter);
      }
      NoSuchName(gn);
      Entered(names, table, names[o := Some(gn)], o, gn, [o] + table[hn]);
      names := names[o := Some(gn)];
      table := table[hn := [o] + table[hn]];
    }

    /** bgl_gensym. Without a base the symbol gets its name later, from bgl_symbol_genname. */
    method Gensym(base: Option<seq<byte>>) returns (o: nat)
      requires Valid()
      modifies `names, `table, `gensymCounter
      ensures Valid() && o == |old(names)| && |names| == o + 1
      ensures forall s | 0 <= s < o :: names[s] == old(names)[s]
      ensures base.None? ==> names[o].None? && gensymCounter == old(gensymCounter)
      ensures base.Some? ==> gensymCounter > old(gensymCounter)
                             && names[o] == Some(Candidate(Cut(CName(base.value)), gensymCounter))
      ensures forall s: nat | names[o].Some? :: old(Name(s)) != names[o]
    {
      hide Hash;
      o := |names|;
      Unnamed(names, table);
      names := names + [None];
      assert forall s: nat :: Name(s) == old(Name(s));
      if base.Some? {
        CNameHasNoNul(base.value);
        var gn := Genname(o, CName(base.value));
      }
    }

    /** Any run of lookups, gensyms and late namings: two lookups give the same symbol exactly if
        they are for the same name, byte for byte, and a gensym is none of the symbols before it. */
    method Run(ops: seq<Op>) returns (out: seq<nat>)
      requires Valid()
      modifies `names, `table, `gensymCounter
      ensures Valid() && |out| == |ops|
      ensures forall i, j | 0 <= i < |ops| && 0 <= j < |ops| && ops[i].InternOp? && ops[j].InternOp? ::
                out[i] == out[j] <==> ops[i].name == ops[j].name
      ensures forall i, j | 0 <= j < i < |ops| && ops[i].GensymOp? && !ops[j].NameOp? :: out[i] != out[j]
    {
      hide Symtab.Valid;
      out := [];
      for k := 0 to |ops|
        invariant Valid() && |out| == k
        invariant forall i | 0 <= i < k && !ops[i].NameOp? :: out[i] < |names|
        invariant forall i | 0 <= i < k && ops[i].InternOp? :: Name(out[i]) == Some(ops[i].name)
        invariant forall i, j | 0 <= j < i < k && ops[i].GensymOp? && !ops[j].NameOp? :: out[i] != out[j]
      {
        var s := Perform(ops[k]);
        out := out + [s];
      }
      forall i, j | 0 <= i < |ops| && 0 <= j < |ops| && ops[i].InternOp? && ops[j].InternOp?
        ensures out[i] == out[j] <==> ops[i].name == ops[j].name
      {
        if ops[i].name == ops[j].name { OneSymbolAName(out[i], out[j]); }
      }
    }

    lemma OneSymbolAName(s: nat, t: nat)
      requires Valid() && Name(s).Some? && Name(s) == Name(t)
      ensures s == t
    {}

    method Perform(op: Op) returns (s: nat)
      requires Valid()
      modifies `names, `table, `gensymCounter
      ensures Valid() && |old(names)| <= |names|
      ensures forall t | 0 <= t < |old(names)| && old(names)[t].Some? :: Name(t) == old(names)[t]
      ensures !op.NameOp? ==> s < |names|
      ensures op.InternOp? ==> Name(s) == Some(op.name)
      ensures op.GensymOp? ==> s == |old(names)|
    {
      hide Symtab.Valid;
      match op {
        case InternOp(name) => s := Intern(name);
        case GensymOp(base) => s := Gensym(base);
        case NameOp(o, base) =>
          s := o;
          if o < |names| && names[o].None? {
            CNameHasNoNul(base);
            var gn := Genname(o, CName(base));
          }
      }
    }

    lemma NoSuchName(gn: seq<byte>)
      requires Valid() && CName(gn) == gn
      requires forall s | s in table[Hash(gn)] :: !NamedInC(s, gn)
      ensures forall s: nat :: Name(s) != Some(gn)
    {}
  }

  /** A table whose one symbol has a NUL for a name: symbol_exists_p answers that the empty name
      exists, which no symbol has. */
  method NulName() returns (t: Symtab, r: bool)
    ensures t.Valid() && r && forall s: nat :: t.Name(s) != Some([])
  {
    t := new Symtab();
    var s := t.Intern([0]);
    assert HashWord([0]) == HashStep(HashWord([0][..0]), 0) == 0 && HashWord([]) == 0;
    r := t.SymbolExistsP([]);
    assert t.NamedInC(s, []) && Hash(t.Name(s).value) == Hash([]);
  }

  datatype Op = InternOp(name: seq<byte>) | GensymOp(base: Option<seq<byte>>) | NameOp(s: nat, text: seq<byte>)

  lemma Unnamed(names: seq<Option<seq<byte>>>, table: seq<seq<nat>>)
    requires TableOk(names, table)
    ensures TableOk(names + [None], table)
  {
    assert forall s: nat :: NameIn(names + [None], s) == NameIn(names, s);
  }

  lemma {:induction false} CNameHasNoNul(s: seq<byte>)
    ensures 0 !in CName(s)
  {
    if s != [] { CNameHasNoNul(s[1..]); }
  }

  lemma CandidatePlain(base: seq<byte>, k: nat)
    requires 0 !in base
    ensures 0 !in Candidate(base, k)
  {
    NumeralIsToken(k);
    TokenBytes(Numeral(k, 10));
  }

  lemma {:induction false} CNameOfBuffer(s: seq<byte>)
    requires 0 !in s
    ensures CName(s + [0]) == s == CName(s)
  {
    if s != [] {
      assert (s + [0])[1..] == s[1..] + [0];
      CNameOfBuffer(s[1..]);
      assert s == [s[0]] + s[1..];
    }
  }
}
