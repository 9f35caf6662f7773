/**
 Log records kept as a format string followed by its raw arguments.  One walker
 writes them and another, written separately, reads them back; both go over the
 conversion syntax of printf (a subset of section 7.21.6.1 of ISO/IEC 9899:2011)
 and must agree on every argument's type and place.

 This module says what a format takes from the argument list and how arguments
 are stored; `LogWalkers` has the two walkers.  Sizes are those of LP64: int 4
 bytes; long, long long, size_t, ptrdiff_t, intmax_t, double and pointers 8.
 */
module LogFormat {

  const NUL: char := '\0'
  const XC: char := 7 as char  // QB_XC: start of the extended information

  /** A C string of single-byte characters. */
  predicate CString(s: string) {
    forall i :: 0 <= i < |s| ==> 0 < s[i] as int < 256
  }

  // ------------------------------------------------------------ raw arguments

  /** Arguments by their bits. */
  datatype Arg =
    | IntArg(v: nat)
    | LongArg(v: nat)
    | DoubleArg(v: nat)
    | CharArg(v: nat)
    | PtrArg(v: nat)
    | StrArg(s: string)
    | NullStrArg

  /** What a conversion puts into the record.  `cut` is the precision in force for
      a string, 0 for none; `PercentKind` is a byte that no argument supplies. */
  datatype Kind = IntKind | LongKind | DoubleKind | CharKind | PtrKind | StrKind(cut: nat) | PercentKind

  function Pow256(n: nat): (p: nat)
    ensures p > 0
  {
    if n == 0 then 1 else 256 * Pow256(n - 1)
  }

  /** n bytes, the least significant first. */
  function Bytes(v: nat, n: nat): (s: string)
    ensures |s| == n
    decreases n
  {
    if n == 0 then "" else [(v % 256) as char] + Bytes(v / 256, n - 1)
  }

  function Number(s: string): (v: nat) {
    if s == "" then 0 else s[0] as int + 256 * Number(s[1..])
  }

  lemma {:induction false} NumberOfBytes(v: nat, n: nat)
    requires v < Pow256(n)
    ensures Number(Bytes(v, n)) == v
    decreases n
  {
    if n > 0 {
      NumberOfBytes(v / 256, n - 1);
      assert Bytes(v, n)[1..] == Bytes(v / 256, n - 1);
    }
  }

  /** The bytes a number of this kind takes. */
  function Size(k: Kind): (n: nat) {
    match k
    case IntKind => 4
    case CharKind => 1
    case PercentKind => 1
    case StrKind(_) => 0
    case _ => 8
  }

  predicate Fits(k: Kind, a: Arg) {
    match k
    case IntKind => a.IntArg? && a.v < Pow256(4)
    case LongKind => a.LongArg? && a.v < Pow256(8)
    case DoubleKind => a.DoubleArg? && a.v < Pow256(8)
    case CharKind => a.CharArg? && a.v < Pow256(4)
    case PtrKind => a.PtrArg? && a.v < Pow256(8)
    case StrKind(_) => a.NullStrArg? || (a.StrArg? && CString(a.s))
    case PercentKind => false
  }

  /** The arguments are what the conversions ask for. */
  predicate FitAll(ks: seq<Kind>, args: seq<Arg>) {
    if ks == [] then args == []
    else if ks[0].PercentKind? then FitAll(ks[1..], args)
    else args != [] && Fits(ks[0], args[0]) && FitAll(ks[1..], args[1..])
  }

  /** The characters of a string argument that are kept. */
  function Kept(cut: nat, a: Arg): (r: string)
    requires Fits(StrKind(cut), a)
    ensures CString(r)
  {
    if a.NullStrArg? then "(null)" else if cut != 0 && cut < |a.s| then a.s[..cut] else a.s
  }

  /** One argument as it is stored. */
  function Store(k: Kind, a: Arg): (s: string)
    requires Fits(k, a)
    ensures |s| > 0
    ensures !k.StrKind? ==> |s| == Size(k)
  {
    match k
    case StrKind(cut) => Kept(cut, a) + [NUL]
    case CharKind => Bytes(a.v % 256, 1)
    case IntKind => Bytes(a.v, 4)
    case LongKind => Bytes(a.v, 8)
    case DoubleKind => Bytes(a.v, 8)
    case PtrKind => Bytes(a.v, 8)
  }

  function StoreAll(ks: seq<Kind>, args: seq<Arg>): (s: string)
    requires FitAll(ks, args)
  {
    if ks == [] then ""
    else if ks[0].PercentKind? then "%" + StoreAll(ks[1..], args)
    else Store(ks[0], args[0]) + StoreAll(ks[1..], args[1..])
  }

  /** What comes back: the argument, a character without its higher bits, a string
      as far as it was kept. */
  function Restored(k: Kind, a: Arg): (r: Arg)
    requires Fits(k, a)
  {
    match k
    case StrKind(cut) => StrArg(Kept(cut, a))
    case CharKind => CharArg(a.v % 256)
    case _ => a
  }

  function RestoredAll(ks: seq<Kind>, args: seq<Arg>): (r: seq<Arg>)
    requires FitAll(ks, args)
  {
    if ks == [] then []
    else if ks[0].PercentKind? then RestoredAll(ks[1..], args)
    else [Restored(ks[0], args[0])] + RestoredAll(ks[1..], args[1..])
  }

  /** Where the stored arguments start, the first byte stored at `from`. */
  function Offsets(ks: seq<Kind>, args: seq<Arg>, from: nat): (r: seq<nat>)
    requires FitAll(ks, args)
    ensures |r| == |args|
    ensures forall i :: 0 <= i < |r| ==> r[i] >= from
  {
    if ks == [] then []
    else if ks[0].PercentKind? then Offsets(ks[1..], args, from + 1)
    else [from] + Offsets(ks[1..], args[1..], from + |Store(ks[0], args[0])|)
  }

  // ------------------------------------------------------------- the grammar

  predicate IsFlag(c: char) {
    c == '#' || c == '-' || c == ' ' || c == '+' || c == '\'' || c == 'I'
  }

  predicate IsDigit(c: char) {
    '0' <= c <= '9'
  }

  predicate IsLength(c: char) {
    c == 'l' || c == 'z' || c == 't' || c == 'j'
  }

  predicate IsIntConv(c: char) {
    c == 'd' || c == 'i' || c == 'o' || c == 'u' || c == 'x' || c == 'X'
  }

  predicate IsDoubleConv(c: char) {
    c == 'e' || c == 'E' || c == 'f' || c == 'F' || c == 'g' || c == 'G' || c == 'a' || c == 'A'
  }

  /** Where in a format a scan is: outside a conversion, or in one with or without
      a length modifier.  The precision, once given, stays in force to the end. */
  datatype Scan = Scan(inConv: bool, long: bool, dotted: bool, precision: nat)

  const START := Scan(false, false, false, 0)

  function Next(z: Scan, c: char): (r: Scan) {
    if !z.inConv then (if c == '%' then z.(inConv := true, long := false) else z)
    else if IsFlag(c) || c == '*' then z
    else if c == '.' then z.(dotted := true)
    else if IsDigit(c) then (if z.dotted then z.(precision := 10 * z.precision + (c as int - '0' as int)) else z)
    else if IsLength(c) then z.(long := true)
    else z.(inConv := false)
  }

  function Takes(z: Scan, c: char): (ks: seq<Kind>) {
    if !z.inConv then []
    else if c == '*' then [IntKind]
    else if IsIntConv(c) then [if z.long then LongKind else IntKind]
    else if IsDoubleConv(c) then [DoubleKind]
    else if c == 'c' then [CharKind]
    else if c == 's' then [StrKind(z.precision)]
    else if c == 'p' then [PtrKind]
    else []
  }

  /** A second percent sign: the reader steps over it, the writer stores a byte,
      forgets the precision and takes the sign for the start of a conversion. */
  predicate Escape(z: Scan, c: char) {
    z.inConv && c == '%'
  }

  const RESTART := Scan(true, false, false, 0)

  /** What the rest of a format takes from the argument list, as it is read. */
  function Kinds(fmt: string, z: Scan): (ks: seq<Kind>)
    ensures PercentKind !in ks
    decreases |fmt|
  {
    if fmt == "" then [] else Takes(z, fmt[0]) + Kinds(fmt[1..], Next(z, fmt[0]))
  }

  /** The same, as it is written. */
  function Written(fmt: string, z: Scan): (ks: seq<Kind>)
    decreases |fmt|
  {
    if fmt == "" then []
    else if Escape(z, fmt[0]) then [PercentKind] + Written(fmt[1..], RESTART)
    else Takes(z, fmt[0]) + Written(fmt[1..], Next(z, fmt[0]))
  }

  predicate NoArgs(ks: seq<Kind>) {
    forall i :: 0 <= i < |ks| ==> ks[i].PercentKind?
  }

  /** After the first escaped percent sign neither walker takes an argument. */
  predicate Settled(fmt: string, z: Scan)
    decreases |fmt|
  {
    if fmt == "" then true
    else if Escape(z, fmt[0]) then NoArgs(Written(fmt[1..], RESTART)) && Kinds(fmt[1..], Next(z, '%')) == []
    else Settled(fmt[1..], Next(z, fmt[0]))
  }

  /** Between conversions a character other than the percent sign changes nothing. */
  lemma SkipText(fmt: string, z: Scan)
    requires fmt != "" && !z.inConv && fmt[0] != '%'
    ensures Kinds(fmt, z) == Kinds(fmt[1..], z)
    ensures Written(fmt, z) == Written(fmt[1..], z)
  {
  }

  // ------------------------------------------------------- the stored format

  /** The first extended-information mark is in the last place. */
  predicate TrailingMark(fmt: string) {
    fmt != "" && fmt[|fmt| - 1] == XC && XC !in fmt[..|fmt| - 1]
  }

  /** The format with its first mark turned into a bar. */
  function Barred(fmt: string): (r: string)
    ensures |r| == |fmt|
    ensures CString(fmt) ==> CString(r)
  {
    if fmt == "" then "" else if fmt[0] == XC then ['|'] + fmt[1..] else [fmt[0]] + Barred(fmt[1..])
  }

  /** The format a reader of the record finds. */
  function Text(fmt: string): (r: string)
    ensures CString(fmt) ==> CString(r)
  {
    if TrailingMark(fmt) then fmt[..|fmt| - 1] else Barred(fmt)
  }

  /** A whole record.  A mark in the last place becomes a terminator, and the data
      start one byte further on than the terminator's successor. */
  function Image(fmt: string, args: seq<Arg>): (r: string)
    requires FitAll(Written(fmt, START), args)
  {
    Text(fmt) + (if TrailingMark(fmt) then [NUL, NUL] else [NUL]) + StoreAll(Written(fmt, START), args)
  }

  lemma {:induction false} BarredReads(fmt: string, z: Scan)
    ensures Kinds(Barred(fmt), z) == Kinds(fmt, z)
    decreases |fmt|
  {
    if fmt != "" {
      assert Barred(fmt)[1..] == if fmt[0] == XC then fmt[1..] else Barred(fmt[1..]);
      if fmt[0] != XC {
        BarredReads(fmt[1..], Next(z, fmt[0]));
      }
    }
  }

  lemma {:induction false} LastMarkTakesNothing(fmt: string, z: Scan)
    ensures Kinds(fmt + [XC], z) == Kinds(fmt, z)
    decreases |fmt|
  {
    if fmt == "" {
      assert Kinds([XC], z) == Takes(z, XC) + Kinds("", Next(z, XC));
    } else {
      assert (fmt + [XC])[1..] == fmt[1..] + [XC];
      LastMarkTakesNothing(fmt[1..], Next(z, fmt[0]));
    }
  }

  /** Rewriting the mark never changes what a reader takes. */
  lemma TextReads(fmt: string)
    ensures Kinds(Text(fmt), START) == Kinds(fmt, START)
  {
    if TrailingMark(fmt) {
      assert fmt == fmt[..|fmt| - 1] + [XC];
      LastMarkTakesNothing(fmt[..|fmt| - 1], START);
    } else {
      BarredReads(fmt, START);
    }
  }

  // ---------------------------------------------------------------- lockstep

  /** When the two walkers keep in step.  This can be told from the format alone. */
  predicate InStep(fmt: string) {
    if TrailingMark(fmt) then NoArgs(Written(fmt, START)) && Kinds(fmt, START) == []
    else Settled(fmt, START)
  }

  function Percents(n: nat): (s: string) {
    if n == 0 then "" else "%" + Percents(n - 1)
  }

  lemma {:induction false} NothingStored(ks: seq<Kind>, args: seq<Arg>)
    requires NoArgs(ks) && FitAll(ks, args)
    ensures args == [] && StoreAll(ks, args) == Percents(|ks|)
  {
    if ks != [] {
      NothingStored(ks[1..], args);
    }
  }

  /** The bytes that follow the last argument. */
  ghost function Rest(fmt: string, z: Scan): (s: string)
    decreases |fmt|
  {
    if fmt == "" then ""
    else if Escape(z, fmt[0]) then "%" + Percents(|Written(fmt[1..], RESTART)|)
    else Rest(fmt[1..], Next(z, fmt[0]))
  }

  lemma Taken(ks: seq<Kind>, more: seq<Kind>, args: seq<Arg>)
    requires |ks| == 1 && !ks[0].PercentKind?
    ensures (ks + more)[1..] == more
    ensures FitAll(ks + more, args) <==> args != [] && Fits(ks[0], args[0]) && FitAll(more, args[1..])
  {
    assert (ks + more)[1..] == more;
  }

  /** One argument and the rest of them. */
  lemma TakenStored(ks: seq<Kind>, more: seq<Kind>, args: seq<Arg>, from: nat)
    requires |ks| == 1 && !ks[0].PercentKind? && FitAll(ks + more, args)
    ensures args != [] && Fits(ks[0], args[0]) && FitAll(more, args[1..])
    ensures StoreAll(ks + more, args) == Store(ks[0], args[0]) + StoreAll(more, args[1..])
    ensures RestoredAll(ks + more, args) == [Restored(ks[0], args[0])] + RestoredAll(more, args[1..])
    ensures Offsets(ks + more, args, from) == [from] + Offsets(more, args[1..], from + |Store(ks[0], args[0])|)
  {
    hide Store, Fits, Restored;
    assert (ks + more)[1..] == more;
  }

  /** A character that is no second percent sign, seen by both walkers. */
  lemma Step(fmt: string, z: Scan)
    requires fmt != "" && !Escape(z, fmt[0])
    ensures |Takes(z, fmt[0])| <= 1 && PercentKind !in Takes(z, fmt[0])
    ensures Takes(z, fmt[0]) == [] ==> Kinds(fmt, z) == Kinds(fmt[1..], Next(z, fmt[0]))
    ensures Takes(z, fmt[0]) == [] ==> Written(fmt, z) == Written(fmt[1..], Next(z, fmt[0]))
    ensures Kinds(fmt, z) == Takes(z, fmt[0]) + Kinds(fmt[1..], Next(z, fmt[0]))
    ensures Written(fmt, z) == Takes(z, fmt[0]) + Written(fmt[1..], Next(z, fmt[0]))
    ensures Settled(fmt, z) == Settled(fmt[1..], Next(z, fmt[0]))
  {
  }

  /** A second percent sign, seen by both walkers. */
  lemma StepEscape(fmt: string, z: Scan)
    requires fmt != "" && Escape(z, fmt[0])
    ensures Kinds(fmt, z) == Kinds(fmt[1..], Next(z, '%'))
    ensures Written(fmt, z) == [PercentKind] + Written(fmt[1..], RESTART)
    ensures Settled(fmt, z) <==> NoArgs(Written(fmt[1..], RESTART)) && Kinds(fmt[1..], Next(z, '%')) == []
  {
    assert Takes(z, '%') == [];
  }

  /** While a format is settled, what is read is what was written. */
  lemma {:induction false} SettledReads(fmt: string, z: Scan, args: seq<Arg>, from: nat)
    requires Settled(fmt, z) && FitAll(Written(fmt, z), args)
    ensures FitAll(Kinds(fmt, z), args)
    ensures StoreAll(Written(fmt, z), args) == StoreAll(Kinds(fmt, z), args) + Rest(fmt, z)
    ensures RestoredAll(Written(fmt, z), args) == RestoredAll(Kinds(fmt, z), args)
    ensures Offsets(Written(fmt, z), args, from) == Offsets(Kinds(fmt, z), args, from)
    decreases |fmt|
  {
    hide Next, Takes, Store, Fits, Restored, Settled;
    if fmt != "" {
      hide Kinds, Written;
      var c, more := fmt[0], fmt[1..];
      if Escape(z, c) {
        SettledEscape(fmt, z, args);
      } else {
        var z' := Next(z, c);
        Step(fmt, z);
        if Takes(z, c) == [] {
          SettledReads(more, z', args, from);
        } else {
          hide FitAll, StoreAll, RestoredAll, Offsets;
          var ks := Takes(z, c);
          TakenStored(ks, Written(more, z'), args, from);
          SettledReads(more, z', args[1..], from + |Store(ks[0], args[0])|);
          Taken(ks, Kinds(more, z'), args);
          TakenStored(ks, Kinds(more, z'), args, from);
        }
      }
    }
  }

  lemma SettledEscape(fmt: string, z: Scan, args: seq<Arg>)
    requires fmt != "" && Escape(z, fmt[0]) && Settled(fmt, z) && FitAll(Written(fmt, z), args)
    ensures Kinds(fmt, z) == [] && args == []
    ensures StoreAll(Written(fmt, z), args) == Rest(fmt, z)
    ensures RestoredAll(Written(fmt, z), args) == []
  {
    hide Next, Takes, Kinds, Written, Settled;
    StepEscape(fmt, z);
    NothingStored(Written(fmt, z), args);
    assert RestoredAll(Written(fmt, z), args) == [] by {
      NothingRestored(Written(fmt, z), args);
    }
  }

  lemma {:induction false} NothingRestored(ks: seq<Kind>, args: seq<Arg>)
    requires NoArgs(ks) && FitAll(ks, args)
    ensures RestoredAll(ks, args) == []
  {
    if ks != [] {
      NothingRestored(ks[1..], args);
    }
  }

  /** Where a reader that goes by `ks` looks for its arguments. */
  function Places(ks: seq<Kind>, buf: string, pos: nat): (r: seq<nat>)
    ensures |r| == |ks|
    ensures forall i :: 0 <= i < |r| ==> r[i] >= pos
    ensures ks != [] ==> r[0] == pos
  {
    if ks == [] then []
    else [pos] + Places(ks[1..], buf, pos + (if ks[0].StrKind? then Length(buf, pos) + 1 else Size(ks[0])))
  }

  /** The length of the C string at `pos`. */
  function Length(buf: string, pos: nat): (n: nat)
    decreases |buf| - pos
  {
    if pos >= |buf| || buf[pos] == NUL then 0 else 1 + Length(buf, pos + 1)
  }

  lemma {:induction false} LengthOf(buf: string, pos: nat, s: string)
    requires pos + |s| < |buf| && buf[pos..pos + |s|] == s && CString(s) && buf[pos + |s|] == NUL
    ensures Length(buf, pos) == |s|
    decreases |s|
  {
    if s != "" {
      assert buf[pos] == s[0];
      assert buf[pos + 1..pos + |s|] == s[1..];
      LengthOf(buf, pos + 1, s[1..]);
    }
  }

  /** A stored string ends where a reader takes it to end. */
  lemma StoredWidth(k: Kind, a: Arg, buf: string, pos: nat, more: string)
    requires Fits(k, a) && pos <= |buf| && buf[pos..] == Store(k, a) + more
    ensures |Store(k, a)| == if k.StrKind? then Length(buf, pos) + 1 else Size(k)
    ensures buf[pos + |Store(k, a)|..] == more
  {
    var n := |Store(k, a)|;
    assert |buf[pos..]| == n + |more|;
    assert buf[pos..][n..] == more && buf[pos..][..n] == Store(k, a);
    if k.StrKind? {
      var s := Kept(k.cut, a);
      assert forall i :: 0 <= i < n ==> buf[pos + i] == buf[pos..][i];
      assert buf[pos..pos + |s|] == s;
      LengthOf(buf, pos, s);
    }
  }

  /** Over arguments stored as `ks` says, a reader that goes by `ks` finds each one. */
  lemma {:induction false} OffsetsArePlaces(ks: seq<Kind>, args: seq<Arg>, buf: string, pos: nat, rest: string)
    requires FitAll(ks, args) && PercentKind !in ks
    requires pos <= |buf| && buf[pos..] == StoreAll(ks, args) + rest
    ensures Offsets(ks, args, pos) == Places(ks, buf, pos)
    decreases |ks|
  {
    hide Store, Fits, Length, Size;
    if ks != [] {
      var more := StoreAll(ks[1..], args[1..]) + rest;
      assert StoreAll(ks, args) + rest == Store(ks[0], args[0]) + more;
      StoredWidth(ks[0], args[0], buf, pos, more);
      OffsetsArePlaces(ks[1..], args[1..], buf, pos + |Store(ks[0], args[0])|, rest);
    }
  }

  lemma {:induction false} SomeArgs(ks: seq<Kind>, args: seq<Arg>)
    requires FitAll(ks, args)
    ensures NoArgs(ks) <==> args == []
  {
    if ks != [] {
      if ks[0].PercentKind? {
        SomeArgs(ks[1..], args);
        assert NoArgs(ks[1..]) ==> NoArgs(ks);
      }
    }
  }

  /** From a common place on, the walkers keep in step exactly on settled formats. */
  lemma {:induction false} InStepFrom(fmt: string, z: Scan, args: seq<Arg>, buf: string, pos: nat)
    requires FitAll(Written(fmt, z), args)
    requires pos <= |buf| && buf[pos..] == StoreAll(Written(fmt, z), args)
    ensures Settled(fmt, z) <==> Places(Kinds(fmt, z), buf, pos) == Offsets(Written(fmt, z), args, pos)
    decreases |fmt|
  {
    hide Next, Takes, Store, Fits, Restored, Length, Size;
    if fmt != "" {
      hide Kinds, Written, Settled;
      var c, more := fmt[0], fmt[1..];
      if Escape(z, c) {
        OutOfStep(fmt, z, args, buf, pos);
      } else {
        var z' := Next(z, c);
        Step(fmt, z);
        if Takes(z, c) == [] {
          InStepFrom(more, z', args, buf, pos);
        } else {
          hide FitAll, StoreAll, Offsets, Places, RestoredAll;
          var ks := Takes(z, c);
          TakenStored(ks, Written(more, z'), args, pos);
          StoredWidth(ks[0], args[0], buf, pos, StoreAll(Written(more, z'), args[1..]));
          InStepFrom(more, z', args[1..], buf, pos + |Store(ks[0], args[0])|);
          TakenInStep(ks, Written(more, z'), Kinds(more, z'), args, buf, pos);
        }
      }
    }
  }

  /** An argument that both find at one place keeps them in step, or out of it. */
  lemma TakenInStep(ks: seq<Kind>, written: seq<Kind>, kinds: seq<Kind>, args: seq<Arg>, buf: string, pos: nat)
    requires |ks| == 1 && !ks[0].PercentKind? && FitAll(ks + written, args) && args != [] && Fits(ks[0], args[0]) &&
             FitAll(written, args[1..])
    requires |Store(ks[0], args[0])| == if ks[0].StrKind? then Length(buf, pos) + 1 else Size(ks[0])
    ensures var w := |Store(ks[0], args[0])|;
            Places(ks + kinds, buf, pos) == Offsets(ks + written, args, pos) <==>
            Places(kinds, buf, pos + w) == Offsets(written, args[1..], pos + w)
  {
    hide Store, Fits, Length, Size, FitAll, Offsets, Places, StoreAll, RestoredAll;
    var w := |Store(ks[0], args[0])|;
    TakenStored(ks, written, args, pos);
    TakenPlaces(ks, kinds, buf, pos);
    var p, o := Places(kinds, buf, pos + w), Offsets(written, args[1..], pos + w);
    assert ([pos] + p)[1..] == p && ([pos] + o)[1..] == o;
  }

  lemma TakenPlaces(ks: seq<Kind>, more: seq<Kind>, buf: string, pos: nat)
    requires |ks| == 1
    ensures Places(ks + more, buf, pos) ==
            [pos] + Places(more, buf, pos + if ks[0].StrKind? then Length(buf, pos) + 1 else Size(ks[0]))
  {
    assert (ks + more)[1..] == more;
  }

  lemma OutOfStep(fmt: string, z: Scan, args: seq<Arg>, buf: string, pos: nat)
    requires fmt != "" && Escape(z, fmt[0]) && FitAll(Written(fmt, z), args)
    ensures Settled(fmt, z) <==> Places(Kinds(fmt, z), buf, pos) == Offsets(Written(fmt, z), args, pos)
  {
    hide Next, Takes, Kinds, Written, Settled, Size, Length, Store, Fits;
    StepEscape(fmt, z);
    var ks := Written(fmt[1..], RESTART);
    assert Written(fmt, z)[1..] == ks;
    SomeArgs(ks, args);
    var p, o := Places(Kinds(fmt, z), buf, pos), Offsets(Written(fmt, z), args, pos);
    assert o == Offsets(ks, args, pos + 1);
    if p != [] && o != [] {
      assert p[0] == pos && o[0] >= pos + 1;
    }
  }

  /** The reader looks for every argument just where the writer put it if and only
      if the format is in step, for every format and every argument list. */
  lemma InStepExactly(fmt: string, args: seq<Arg>)
    requires FitAll(Written(fmt, START), args)
    ensures InStep(fmt) <==>
            Places(Kinds(Text(fmt), START), Image(fmt, args), |Text(fmt)| + 1) ==
                Offsets(Written(fmt, START), args, |fmt| + 1)
  {
    hide Kinds, Written, Settled, Places, Offsets, StoreAll, FitAll;
    TextReads(fmt);
    var ks := Written(fmt, START);
    SomeArgs(ks, args);
    if TrailingMark(fmt) {
      var p, o := Places(Kinds(fmt, START), Image(fmt, args), |fmt|), Offsets(ks, args, |fmt| + 1);
      if p != [] && o != [] {
        assert p[0] == |fmt| && o[0] >= |fmt| + 1;
      }
    } else {
      assert Image(fmt, args)[|fmt| + 1..] == StoreAll(ks, args);
      InStepFrom(fmt, START, args, Image(fmt, args), |fmt| + 1);
    }
  }

  /** The record of a format in step, as its reader needs it: the text, then the
      arguments of that text, then bytes that are never looked at. */
  lemma InStepImage(fmt: string, args: seq<Arg>) returns (rest: string)
    requires InStep(fmt) && FitAll(Written(fmt, START), args)
    ensures FitAll(Kinds(Text(fmt), START), args)
    ensures Image(fmt, args) == Text(fmt) + [NUL] + StoreAll(Kinds(Text(fmt), START), args) + rest
    ensures RestoredAll(Kinds(Text(fmt), START), args) == RestoredAll(Written(fmt, START), args)
    ensures Offsets(Kinds(Text(fmt), START), args, |Text(fmt)| + 1) == Offsets(Written(fmt, START), args, |fmt| + 1)
  {
    hide Kinds, Written, Settled;
    TextReads(fmt);
    var ks := Written(fmt, START);
    if TrailingMark(fmt) {
      NothingStored(ks, args);
      NothingRestored(ks, args);
      rest := [NUL] + StoreAll(ks, args);
    } else {
      SettledReads(fmt, START, args, |fmt| + 1);
      rest := Rest(fmt, START);
    }
  }

  /** No conversion ends in a percent sign. */
  predicate Plain(fmt: string, z: Scan)
    decreases |fmt|
  {
    fmt != "" ==> !Escape(z, fmt[0]) && Plain(fmt[1..], Next(z, fmt[0]))
  }

  lemma {:induction false} PlainIsSettled(fmt: string, z: Scan)
    requires Plain(fmt, z)
    ensures Settled(fmt, z)
    decreases |fmt|
  {
    if fmt != "" {
      PlainIsSettled(fmt[1..], Next(z, fmt[0]));
    }
  }

  /** Every format without "%%" and without a trailing mark is in step. */
  lemma PlainIsInStep(fmt: string)
    requires Plain(fmt, START) && !TrailingMark(fmt)
    ensures InStep(fmt)
  {
    PlainIsSettled(fmt, START);
  }

  /** A mark in the last place puts any argument one byte off. */
  lemma MarkLosesStep()
    ensures !InStep("%d" + [XC]) && Kinds("%d" + [XC], START) == [IntKind]
  {
    var a, b, c := "%d" + [XC], "d" + [XC], [XC];
    var z := START.(inConv := true);
    assert a[1..] == b && b[1..] == c && c[1..] == "";
    assert Kinds(c, START) == [] by {
      assert Kinds("", START) == [];
    }
    assert Kinds(b, z) == [IntKind];
    assert Kinds(a, START) == [IntKind];
    assert TrailingMark(a) by {
      assert a[2] == XC && a[..2] == "%d";
    }
  }

  /** A letter after an escaped percent sign is enough to lose step: the writer takes
      the second sign for the start of a conversion. */
  lemma EscapeLosesStep()
    ensures !InStep("%%d")
    ensures Written("%%d", START) == [PercentKind, IntKind]
    ensures Kinds("%%d", START) == []
  {
    var a, b, c := "%%d", "%d", "d";
    var z := START.(inConv := true);
    assert a[1..] == b && b[1..] == c && c[1..] == "";
    assert Written(c, RESTART) == [IntKind] && Kinds(c, START) == [] by {
      assert Written("", RESTART.(inConv := false)) == [];
    }
    assert Written(b, z) == [PercentKind, IntKind] && Kinds(b, z) == [];
    assert !Settled(b, z) by {
      assert !NoArgs([IntKind]) by { assert ![IntKind][0].PercentKind?; }
    }
    assert !TrailingMark(a) by { assert a[2] == 'd'; }
  }
}
