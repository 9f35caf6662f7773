/**
 What each argument of a log record comes back as, told from the place of its conversion
 in the format: which characters begin, continue and end a conversion, which digits make up
 the precision, and what they are worth.
 */
module LogPositions {
  import opened Common
  import opened LogFormat

  const MODIFIERS := "#- +'I.*lztj0123456789"
  const LENGTHS := "lztj"
  const DIGITS := "0123456789"
  const TAKING := "*diouxXeEfFgGaAcsp"

  // ------------------------------------------------------------------ the format

  /** Only modifiers lie between a percent sign and place i. */
  ghost predicate InConv(fmt: string, i: nat)
    requires i <= |fmt|
  {
    exists p :: 0 <= p < i && fmt[p] == '%' && OnlyModifiers(fmt, p + 1, i)
  }

  ghost predicate OnlyModifiers(fmt: string, from: nat, to: nat)
    requires to <= |fmt|
  {
    forall k :: from <= k < to ==> fmt[k] in MODIFIERS
  }

  /** A length modifier belongs to the conversion at place i. */
  ghost predicate LongMarked(fmt: string, i: nat)
    requires i <= |fmt|
  {
    exists m :: 0 <= m < i && fmt[m] in LENGTHS && InConv(fmt, m) && OnlyModifiers(fmt, m, i)
  }

  /** Some conversion before place i has a point: the precision, once begun, goes on. */
  ghost predicate Pointed(fmt: string, i: nat)
    requires i <= |fmt|
  {
    exists d :: 0 <= d < i && fmt[d] == '.' && InConv(fmt, d)
  }

  /** The digits of conversions behind the first point, up to place n. */
  ghost function Digits(fmt: string, n: nat): (s: string)
    requires n <= |fmt|
  {
    if n == 0 then ""
    else Digits(fmt, n - 1) +
         if fmt[n - 1] in DIGITS && InConv(fmt, n - 1) && Pointed(fmt, n - 1) then [fmt[n - 1]] else ""
  }

  /** What a string of digits is worth. */
  function Decimal(s: string): (v: int) {
    if s == "" then 0 else 10 * Decimal(s[..|s| - 1]) + (s[|s| - 1] as int - '0' as int)
  }

  function Numeral(n: nat): (s: string) {
    (if n < 10 then "" else Numeral(n / 10)) + [DIGITS[n % 10]]
  }

  lemma {:induction false} DecimalOfNumeral(n: nat)
    ensures Decimal(Numeral(n)) == n
  {
    var init := if n < 10 then "" else Numeral(n / 10);
    assert Numeral(n)[..|init|] == init;
    assert DIGITS[n % 10] as int - '0' as int == n % 10;
    if n >= 10 {
      DecimalOfNumeral(n / 10);
    }
  }

  /** The places of the conversions that take an argument, in order. */
  ghost function Convs(fmt: string, n: nat): (js: seq<nat>)
    requires n <= |fmt|
    ensures forall i :: 0 <= i < |js| ==> js[i] < n && fmt[js[i]] in TAKING
  {
    if n == 0 then [] else Convs(fmt, n - 1) + if InConv(fmt, n - 1) && fmt[n - 1] in TAKING then [n - 1] else []
  }

  /** What the argument of the conversion at place j comes back as. */
  ghost predicate GivenBack(fmt: string, j: nat, a: Arg, r: Arg)
    requires j < |fmt|
  {
    var c := fmt[j];
    if c == 's' then
      var p := Decimal(Digits(fmt, j));
      if a.NullStrArg? then r == StrArg("(null)")
      else a.StrArg? && r.StrArg? && r.s <= a.s && |r.s| == if 0 < p < |a.s| then p else |a.s|
    else if c == 'c' then a.CharArg? && r == CharArg(a.v % 256)
    else if c in "diouxX" then r == a && if LongMarked(fmt, j) then a.LongArg? else a.IntArg?
    else if c in "eEfFgGaA" then r == a && a.DoubleArg?
    else if c == 'p' then r == a && a.PtrArg?
    else c == '*' && r == a && a.IntArg?
  }

  // ------------------------------------------------------------- what a scan has seen

  function ScanAfter(fmt: string, n: nat): (z: Scan)
    requires n <= |fmt|
  {
    if n == 0 then START else Next(ScanAfter(fmt, n - 1), fmt[n - 1])
  }

  function KindsUpTo(fmt: string, n: nat): (ks: seq<Kind>)
    requires n <= |fmt|
  {
    if n == 0 then [] else KindsUpTo(fmt, n - 1) + Takes(ScanAfter(fmt, n - 1), fmt[n - 1])
  }

  lemma {:induction false} KindsSplit(fmt: string, n: nat)
    requires n <= |fmt|
    ensures Kinds(fmt, START) == KindsUpTo(fmt, n) + Kinds(fmt[n..], ScanAfter(fmt, n))
  {
    hide Takes, Next;
    if n == 0 {
      assert fmt[0..] == fmt;
    } else {
      KindsSplit(fmt, n - 1);
      var z, c, rest := ScanAfter(fmt, n - 1), fmt[n - 1], fmt[n..];
      assert fmt[n - 1..][1..] == rest && fmt[n - 1..][0] == c;
      assert Kinds(fmt[n - 1..], z) == Takes(z, c) + Kinds(rest, Next(z, c));
      Regroup(KindsUpTo(fmt, n - 1), Takes(z, c), Kinds(rest, Next(z, c)));
    }
  }

  lemma Regroup(a: seq<Kind>, b: seq<Kind>, c: seq<Kind>)
    ensures a + (b + c) == a + b + c
  {
  }

  lemma {:induction false} PlainAt(fmt: string, n: nat)
    requires n <= |fmt| && Plain(fmt, START)
    ensures Plain(fmt[n..], ScanAfter(fmt, n))
    ensures n < |fmt| ==> !Escape(ScanAfter(fmt, n), fmt[n])
  {
    hide Next;
    if n == 0 {
      assert fmt[0..] == fmt;
    } else {
      PlainAt(fmt, n - 1);
      assert fmt[n - 1..][1..] == fmt[n..];
    }
  }

  lemma InConvNext(fmt: string, n: nat)
    requires n < |fmt|
    ensures InConv(fmt, n + 1) <==> fmt[n] == '%' || (InConv(fmt, n) && fmt[n] in MODIFIERS)
  {
    hide MODIFIERS;
    if fmt[n] == '%' {
      assert OnlyModifiers(fmt, n + 1, n + 1);
    }
    if InConv(fmt, n) && fmt[n] in MODIFIERS {
      var p :| 0 <= p < n && fmt[p] == '%' && OnlyModifiers(fmt, p + 1, n);
      assert OnlyModifiers(fmt, p + 1, n + 1);
    }
    if InConv(fmt, n + 1) && fmt[n] != '%' {
      var p :| 0 <= p < n + 1 && fmt[p] == '%' && OnlyModifiers(fmt, p + 1, n + 1);
      assert OnlyModifiers(fmt, p + 1, n);
    }
  }

  lemma LongNext(fmt: string, n: nat)
    requires n < |fmt|
    ensures LongMarked(fmt, n + 1) <==>
            fmt[n] in MODIFIERS && (LongMarked(fmt, n) || (fmt[n] in LENGTHS && InConv(fmt, n)))
  {
    hide InConv, MODIFIERS, LENGTHS;
    if LongMarked(fmt, n + 1) {
      var m :| 0 <= m < n + 1 && fmt[m] in LENGTHS && InConv(fmt, m) && OnlyModifiers(fmt, m, n + 1);
      assert OnlyModifiers(fmt, m, n);
    }
    if fmt[n] in MODIFIERS && LongMarked(fmt, n) {
      var m :| 0 <= m < n && fmt[m] in LENGTHS && InConv(fmt, m) && OnlyModifiers(fmt, m, n);
      assert OnlyModifiers(fmt, m, n + 1);
    }
    if fmt[n] in MODIFIERS && fmt[n] in LENGTHS && InConv(fmt, n) {
      assert OnlyModifiers(fmt, n, n + 1);
    }
  }

  lemma PointNext(fmt: string, n: nat)
    requires n < |fmt|
    ensures Pointed(fmt, n + 1) <==> Pointed(fmt, n) || (fmt[n] == '.' && InConv(fmt, n))
  {
    hide InConv;
  }

  lemma DigitsNext(fmt: string, n: nat)
    requires n < |fmt|
    ensures Decimal(Digits(fmt, n + 1)) ==
            if fmt[n] in DIGITS && InConv(fmt, n) && Pointed(fmt, n)
            then 10 * Decimal(Digits(fmt, n)) + (fmt[n] as int - '0' as int) else Decimal(Digits(fmt, n))
  {
    hide InConv, Pointed;
    var s := Digits(fmt, n);
    assert (s + [fmt[n]])[..|s|] == s;
    assert s + "" == s;
  }

  /** The classes of characters that the walkers tell apart. */
  lemma Classes(c: char)
    ensures IsFlag(c) || c == '*' || c == '.' || IsDigit(c) || IsLength(c) <==> c in MODIFIERS
    ensures IsDigit(c) <==> c in DIGITS
    ensures IsLength(c) <==> c in LENGTHS
    ensures IsIntConv(c) <==> c in "diouxX"
    ensures IsDoubleConv(c) <==> c in "eEfFgGaA"
    ensures c in TAKING <==> c == '*' || c in "diouxX" || c in "eEfFgGaA" || c == 'c' || c == 's' || c == 'p'
    ensures c in LENGTHS || c in DIGITS ==> c in MODIFIERS
  {
  }

  /** What a scan of a plain format knows at place n. */
  ghost predicate Knows(fmt: string, n: nat, z: Scan)
    requires n <= |fmt|
  {
    && (z.inConv <==> InConv(fmt, n)) && (z.inConv ==> (z.long <==> LongMarked(fmt, n)))
    && (z.dotted <==> Pointed(fmt, n)) && z.precision == Decimal(Digits(fmt, n))
  }

  lemma {:induction false} ScanKnows(fmt: string, n: nat)
    requires n <= |fmt| && Plain(fmt, START)
    ensures Knows(fmt, n, ScanAfter(fmt, n))
  {
    hide InConv, LongMarked, Pointed, Digits, Next, Plain;
    if n == 0 {
      NothingSeen(fmt);
    } else {
      ScanKnows(fmt, n - 1);
      PlainAt(fmt, n - 1);
      KnowsNext(fmt, n - 1, ScanAfter(fmt, n - 1));
    }
  }

  lemma NothingSeen(fmt: string)
    ensures !InConv(fmt, 0) && !LongMarked(fmt, 0) && !Pointed(fmt, 0) && Digits(fmt, 0) == ""
  {
  }

  lemma KnowsNext(fmt: string, n: nat, z: Scan)
    requires n < |fmt| && Knows(fmt, n, z) && !Escape(z, fmt[n])
    ensures Knows(fmt, n + 1, Next(z, fmt[n]))
  {
    hide InConv, LongMarked, Pointed, Digits, Decimal, MODIFIERS, DIGITS, LENGTHS, TAKING;
    var c := fmt[n];
    Classes(c);
    InConvNext(fmt, n);
    LongNext(fmt, n);
    PointNext(fmt, n);
    DigitsNext(fmt, n);
  }

  // --------------------------------------------------------------- what is given back

  /** The kind of the conversion at place j. */
  ghost function KindAt(fmt: string, j: nat): (k: Kind)
    requires j < |fmt|
  {
    var c := fmt[j];
    if c == 's' && Decimal(Digits(fmt, j)) >= 0 then StrKind(Decimal(Digits(fmt, j)))
    else if c == 'c' then CharKind
    else if c in "diouxX" then (if LongMarked(fmt, j) then LongKind else IntKind)
    else if c in "eEfFgGaA" then DoubleKind
    else if c == 'p' then PtrKind
    else IntKind
  }

  ghost predicate KindsAre(fmt: string, js: seq<nat>, ks: seq<Kind>) {
    |js| == |ks| && forall i :: 0 <= i < |js| ==> js[i] < |fmt| && ks[i] == KindAt(fmt, js[i])
  }

  /** The argument kinds of a plain format are those of its conversions. */
  lemma {:induction false} KindsByPlace(fmt: string, n: nat)
    requires n <= |fmt| && Plain(fmt, START)
    ensures KindsAre(fmt, Convs(fmt, n), KindsUpTo(fmt, n))
  {
    hide InConv, LongMarked, Digits, Plain, KindAt, Takes, Knows, ScanAfter, KindsAre, TAKING;
    if n == 0 {
      NonePlaced(fmt);
    } else {
      KindsByPlace(fmt, n - 1);
      ScanKnows(fmt, n - 1);
      TakesOne(fmt, n - 1, ScanAfter(fmt, n - 1));
      OneMorePlaced(fmt, Convs(fmt, n - 1), KindsUpTo(fmt, n - 1), n - 1);
    }
  }

  lemma NonePlaced(fmt: string)
    ensures KindsAre(fmt, [], [])
  {
  }

  lemma OneMorePlaced(fmt: string, js: seq<nat>, ks: seq<Kind>, j: nat)
    requires j < |fmt| && KindsAre(fmt, js, ks)
    ensures KindsAre(fmt, js + [j], ks + [KindAt(fmt, j)]) && KindsAre(fmt, js + [], ks + [])
  {
    hide KindAt;
    assert js + [] == js && ks + [] == ks;
  }

  lemma TakesOne(fmt: string, j: nat, z: Scan)
    requires j < |fmt| && Knows(fmt, j, z)
    ensures Takes(z, fmt[j]) == if InConv(fmt, j) && fmt[j] in TAKING then [KindAt(fmt, j)] else []
  {
    hide InConv, LongMarked, Pointed, Digits, Decimal, IsIntConv, IsDoubleConv;
    Classes(fmt[j]);
  }

  lemma {:induction false} RestoredAt(ks: seq<Kind>, args: seq<Arg>, i: nat)
    requires FitAll(ks, args) && PercentKind !in ks && i < |ks|
    ensures |RestoredAll(ks, args)| == |args| == |ks|
    ensures Fits(ks[i], args[i]) && RestoredAll(ks, args)[i] == Restored(ks[i], args[i])
  {
    hide Fits, Restored;
    SameCount(ks, args);
    if i > 0 {
      RestoredAt(ks[1..], args[1..], i - 1);
    }
  }

  lemma {:induction false} SameCount(ks: seq<Kind>, args: seq<Arg>)
    requires FitAll(ks, args) && PercentKind !in ks
    ensures |RestoredAll(ks, args)| == |args| == |ks|
  {
    hide Fits, Restored;
    if ks != [] {
      SameCount(ks[1..], args[1..]);
    }
  }

  lemma BackString(cut: nat, a: Arg)
    requires Fits(StrKind(cut), a)
    ensures Restored(StrKind(cut), a) == StrArg(Kept(cut, a))
    ensures a.NullStrArg? ==> Kept(cut, a) == "(null)"
    ensures a.StrArg? ==> Kept(cut, a) <= a.s && |Kept(cut, a)| == if 0 < cut < |a.s| then cut else |a.s|
  {
  }

  lemma BackByPlace(fmt: string, j: nat, a: Arg)
    requires j < |fmt| && fmt[j] in TAKING && Fits(KindAt(fmt, j), a) && Decimal(Digits(fmt, j)) >= 0
    ensures GivenBack(fmt, j, a, Restored(KindAt(fmt, j), a))
  {
    hide LongMarked, Digits, Decimal, Pow256, CString, TAKING, Kept;
    var c := fmt[j];
    Classes(c);
    if c == 's' {
      BackString(Decimal(Digits(fmt, j)), a);
    }
    assert c != 's' && c != 'c' && c != 'p' && c !in "diouxX" && c !in "eEfFgGaA" ==> c == '*';
  }

  /** Every argument comes back as its conversion's place in the format says. */
  lemma {:induction false} AllGivenBack(fmt: string, args: seq<Arg>)
    requires Plain(fmt, START) && FitAll(Kinds(fmt, START), args)
    ensures var js, back := Convs(fmt, |fmt|), RestoredAll(Kinds(fmt, START), args);
            |js| == |args| == |back| && forall i :: 0 <= i < |js| ==> GivenBack(fmt, js[i], args[i], back[i])
  {
    hide InConv, LongMarked, Digits, Plain, KindAt, Takes, Kinds, GivenBack, FitAll, RestoredAll, Fits, Restored, Convs;
    var js, ks := Convs(fmt, |fmt|), Kinds(fmt, START);
    KindsByPlace(fmt, |fmt|);
    KindsSplit(fmt, |fmt|);
    NoKinds(fmt, ScanAfter(fmt, |fmt|));
    SameCount(ks, args);
    forall i | 0 <= i < |js| ensures GivenBack(fmt, js[i], args[i], RestoredAll(ks, args)[i]) {
      RestoredAt(ks, args, i);
      ScanKnows(fmt, js[i]);
      TakingAt(fmt, i);
      BackByPlace(fmt, js[i], args[i]);
    }
  }

  lemma NoKinds(fmt: string, z: Scan)
    ensures Kinds(fmt[|fmt|..], z) == []
  {
  }

  lemma TakingAt(fmt: string, i: nat)
    requires i < |Convs(fmt, |fmt|)|
    ensures Convs(fmt, |fmt|)[i] < |fmt| && fmt[Convs(fmt, |fmt|)[i]] in TAKING
  {
  }

  // ------------------------------------------------------- formats with escapes in step

  /** The length of a format up to the first escaped percent sign. */
  function PlainLen(fmt: string, z: Scan): (n: nat)
    ensures n <= |fmt|
    decreases |fmt|
  {
    if fmt == "" || Escape(z, fmt[0]) then 0 else 1 + PlainLen(fmt[1..], Next(z, fmt[0]))
  }

  lemma {:induction false} PlainPart(fmt: string, z: Scan)
    ensures var t := fmt[..PlainLen(fmt, z)];
            Plain(t, z) && Kinds(t, z) <= Kinds(fmt, z) && (Settled(fmt, z) ==> Kinds(t, z) == Kinds(fmt, z))
    decreases |fmt|
  {
    hide Next, Takes;
    var t := fmt[..PlainLen(fmt, z)];
    if fmt != "" && !Escape(z, fmt[0]) {
      var c, z' := fmt[0], Next(z, fmt[0]);
      PlainPart(fmt[1..], z');
      assert t[1..] == fmt[1..][..PlainLen(fmt[1..], z')] && t[0] == c;
      assert Kinds(t, z) == Takes(z, c) + Kinds(t[1..], z');
      assert Kinds(fmt, z) == Takes(z, c) + Kinds(fmt[1..], z');
    } else if fmt != "" {
      StepEscape(fmt, z);
    }
  }

  /** The same for every format in step, with its arguments as the writer takes them. */
  lemma {:induction false} AllGivenBackInStep(fmt: string, args: seq<Arg>)
    requires InStep(fmt) && FitAll(Written(fmt, START), args)
    ensures var t := fmt[..PlainLen(fmt, START)];
            var js, back := Convs(t, |t|), RestoredAll(Written(fmt, START), args);
            |js| == |args| == |back| && forall i :: 0 <= i < |js| ==> GivenBack(t, js[i], args[i], back[i])
  {
    hide Plain, Kinds, GivenBack, FitAll, RestoredAll, Convs, Written, Settled, TrailingMark, PlainLen, NoArgs;
    var t := fmt[..PlainLen(fmt, START)];
    PlainPart(fmt, START);
    if TrailingMark(fmt) {
      NothingStored(Written(fmt, START), args);
      NothingRestored(Written(fmt, START), args);
      NothingTaken();
      assert Kinds(t, START) == [];
      AllGivenBack(t, []);
    } else {
      SettledReads(fmt, START, args, 0);
      AllGivenBack(t, args);
    }
  }

  lemma NothingTaken()
    ensures FitAll([], []) && RestoredAll([], []) == []
  {
  }

  /** No percent sign lies inside a conversion. */
  ghost predicate Unescaped(fmt: string) {
    forall i :: 0 <= i < |fmt| && fmt[i] == '%' ==> !InConv(fmt, i)
  }

  lemma {:induction false} UnescapedKnows(fmt: string, n: nat)
    requires n <= |fmt| && Unescaped(fmt)
    ensures Knows(fmt, n, ScanAfter(fmt, n))
  {
    hide InConv, LongMarked, Pointed, Digits, Next;
    if n == 0 {
      NothingSeen(fmt);
    } else {
      UnescapedKnows(fmt, n - 1);
      KnowsNext(fmt, n - 1, ScanAfter(fmt, n - 1));
    }
  }

  lemma {:induction false} UnescapedFrom(fmt: string, n: nat)
    requires n <= |fmt| && Unescaped(fmt)
    ensures var z := ScanAfter(fmt, n); Plain(fmt[n..], z) && PlainLen(fmt[n..], z) == |fmt| - n
    decreases |fmt| - n
  {
    hide InConv, LongMarked, Pointed, Digits, Next;
    if n < |fmt| {
      UnescapedKnows(fmt, n);
      UnescapedFrom(fmt, n + 1);
      assert fmt[n..][1..] == fmt[n + 1..];
    }
  }

  /** Formats without escaped percent signs are plain, and all of them counts. */
  lemma UnescapedIsPlain(fmt: string)
    requires Unescaped(fmt)
    ensures Plain(fmt, START) && PlainLen(fmt, START) == |fmt|
  {
    UnescapedFrom(fmt, 0);
    assert fmt[0..] == fmt;
  }
}
