/**
 What the writer of log records does to memory, for a buffer of any size: which
 bytes it stores, where it ends, and when it stays inside the buffer.

 The memory is longer than the buffer, which is its first `maxLen` bytes; so that
 stores behind the buffer can be told from stores in it.
 */
module LogSpace {
  import opened Common
  import opened LogFormat

  /** Memory after s is stored at `at`. */
  function Put(m: string, at: nat, s: string): (r: string)
    ensures |r| == |m|
  {
    seq(|m|, i requires 0 <= i < |m| => if at <= i < at + |s| then s[i - at] else m[i])
  }

  /** The string that a string argument stands for. */
  function Source(a: Arg): (s: string)
    requires a.StrArg? || a.NullStrArg?
  {
    if a.NullStrArg? then "(null)" else a.s
  }

  /** Only arguments of fixed size are checked against the buffer. */
  predicate Stops(k: Kind, loc: nat, maxLen: nat) {
    !k.StrKind? && loc + Size(k) > maxLen
  }

  /** What is stored of an argument at `loc`.  A string is cut to the room left; in a
      full buffer nothing is stored; and past the buffer's end the room left, an
      unsigned difference, is no limit. */
  function Piece(k: Kind, a: Arg, loc: nat, maxLen: nat): (s: string)
    requires Fits(k, a)
  {
    if !k.StrKind? then Store(k, a)
    else
      var kept := Kept(k.cut, a);
      if loc < maxLen then kept[..Min(|kept|, maxLen - loc - 1)] + [NUL]
      else if loc == maxLen then ""
      else kept + [NUL]
  }

  /** Where the writer goes on.  A string that finds the buffer full is passed over in
      its whole length, cut or not. */
  function Onward(k: Kind, a: Arg, loc: nat, maxLen: nat): (r: nat)
    requires Fits(k, a)
  {
    if k.StrKind? && loc == maxLen then loc + |Source(a)| + 1 else loc + |Piece(k, a, loc, maxLen)|
  }

  // ------------------------------------------------------------- whole records

  /** The writer's result. */
  function End(ks: seq<Kind>, args: seq<Arg>, loc: nat, maxLen: nat): (n: nat)
    requires FitAll(ks, args)
  {
    if ks == [] then loc
    else if Stops(ks[0], loc, maxLen) then maxLen
    else if ks[0].PercentKind? then End(ks[1..], args, loc + 1, maxLen)
    else End(ks[1..], args[1..], Onward(ks[0], args[0], loc, maxLen), maxLen)
  }

  /** The memory it leaves. */
  function Filled(m: string, ks: seq<Kind>, args: seq<Arg>, loc: nat, maxLen: nat): (r: string)
    requires FitAll(ks, args)
    ensures |r| == |m|
    decreases |ks|
  {
    if ks == [] || Stops(ks[0], loc, maxLen) then m
    else if ks[0].PercentKind? then Filled(Put(m, loc, "%"), ks[1..], args, loc + 1, maxLen)
    else
      Filled(Put(m, loc, Piece(ks[0], args[0], loc, maxLen)), ks[1..], args[1..], Onward(ks[0], args[0], loc, maxLen),
          maxLen)
  }

  /** Where it stands when it comes to each argument. */
  function Reached(ks: seq<Kind>, args: seq<Arg>, loc: nat, maxLen: nat): (r: seq<nat>)
    requires FitAll(ks, args)
  {
    if ks == [] || Stops(ks[0], loc, maxLen) then []
    else if ks[0].PercentKind? then Reached(ks[1..], args, loc + 1, maxLen)
    else [loc] + Reached(ks[1..], args[1..], Onward(ks[0], args[0], loc, maxLen), maxLen)
  }

  function Reach(loc: nat, s: string): (n: nat) {
    if s == "" then 0 else loc + |s|
  }

  /** The end of the highest store it makes, 0 if it makes none. */
  function Top(ks: seq<Kind>, args: seq<Arg>, loc: nat, maxLen: nat): (n: nat)
    requires FitAll(ks, args)
  {
    if ks == [] || Stops(ks[0], loc, maxLen) then 0
    else if ks[0].PercentKind? then Max(loc + 1, Top(ks[1..], args, loc + 1, maxLen))
    else
      Max(Reach(loc, Piece(ks[0], args[0], loc, maxLen)),
          Top(ks[1..], args[1..], Onward(ks[0], args[0], loc, maxLen), maxLen))
  }

  /** The most that the arguments can move it. */
  function Span(ks: seq<Kind>, args: seq<Arg>): (n: nat)
    requires FitAll(ks, args)
  {
    if ks == [] then 0
    else if ks[0].PercentKind? then 1 + Span(ks[1..], args)
    else (if ks[0].StrKind? then |Source(args[0])| + 1 else Size(ks[0])) + Span(ks[1..], args[1..])
  }

  /** The conversions that are left when the buffer is exactly full. */
  function Left(ks: seq<Kind>, args: seq<Arg>, loc: nat, maxLen: nat): (r: seq<Kind>)
    requires FitAll(ks, args)
    decreases |ks|
  {
    if loc == maxLen then ks
    else if ks == [] || Stops(ks[0], loc, maxLen) then []
    else if ks[0].PercentKind? then Left(ks[1..], args, loc + 1, maxLen)
    else Left(ks[1..], args[1..], Onward(ks[0], args[0], loc, maxLen), maxLen)
  }

  predicate AllStrings(ks: seq<Kind>) {
    forall i :: 0 <= i < |ks| ==> ks[i].StrKind?
  }

  // -------------------------------------------------- staying inside the buffer

  /** Past the end of the buffer: the next argument is stored outside if it is a string,
      and only an argument of fixed size makes the writer stop. */
  lemma {:induction false} PastEnd(ks: seq<Kind>, args: seq<Arg>, loc: nat, maxLen: nat)
    requires FitAll(ks, args) && loc > maxLen
    ensures Top(ks, args, loc, maxLen) > maxLen <==> ks != [] && ks[0].StrKind?
    ensures End(ks, args, loc, maxLen) > maxLen <==> AllStrings(ks)
    ensures Top(ks, args, loc, maxLen) > 0 ==> Top(ks, args, loc, maxLen) > loc
  {
    if ks != [] && ks[0].StrKind? {
      hide Kept;
      PastEnd(ks[1..], args[1..], Onward(ks[0], args[0], loc, maxLen), maxLen);
      assert ks == [ks[0]] + ks[1..];
    }
  }

  lemma AtEnd(ks: seq<Kind>, args: seq<Arg>, loc: nat, maxLen: nat)
    requires FitAll(ks, args) && loc == maxLen
    ensures Top(ks, args, loc, maxLen) > maxLen <==> |ks| >= 2 && ks[0].StrKind? && ks[1].StrKind?
    ensures End(ks, args, loc, maxLen) > maxLen <==> ks != [] && AllStrings(ks)
  {
    if ks != [] && ks[0].StrKind? {
      hide Kept;
      PastEnd(ks[1..], args[1..], Onward(ks[0], args[0], loc, maxLen), maxLen);
      assert ks == [ks[0]] + ks[1..];
    }
  }

  /** Inside the buffer nothing leads past its end. */
  lemma StaysIn(k: Kind, a: Arg, loc: nat, maxLen: nat)
    requires Fits(k, a) && loc < maxLen && !Stops(k, loc, maxLen)
    ensures Onward(k, a, loc, maxLen) == Reach(loc, Piece(k, a, loc, maxLen)) <= maxLen
    ensures Onward(k, a, loc, maxLen) > loc
  {
  }

  /**
   The exact conditions, in terms of the conversions left when the buffer is full: the
   writer stores behind the buffer if and only if the first two of them are strings,
   and its result exceeds the buffer if and only if there are some and all are strings.
   */
  lemma {:induction false} OverrunExactly(ks: seq<Kind>, args: seq<Arg>, loc: nat, maxLen: nat)
    requires FitAll(ks, args) && loc <= maxLen
    ensures var left := Left(ks, args, loc, maxLen);
            && (Top(ks, args, loc, maxLen) > maxLen <==> |left| >= 2 && left[0].StrKind? && left[1].StrKind?)
            && (End(ks, args, loc, maxLen) > maxLen <==> left != [] && AllStrings(left))
    decreases |ks|
  {
    hide Kept, Store, Fits;
    if loc == maxLen {
      AtEnd(ks, args, loc, maxLen);
    } else if ks != [] && !Stops(ks[0], loc, maxLen) {
      if ks[0].PercentKind? {
        OverrunExactly(ks[1..], args, loc + 1, maxLen);
      } else {
        StaysIn(ks[0], args[0], loc, maxLen);
        hide Piece, Onward;
        OverrunExactly(ks[1..], args[1..], Onward(ks[0], args[0], loc, maxLen), maxLen);
      }
    }
  }

  /** What lies from the highest store on is left alone. */
  lemma {:induction false} NothingBeyond(m: string, ks: seq<Kind>, args: seq<Arg>, loc: nat, maxLen: nat, i: nat)
    requires FitAll(ks, args) && Top(ks, args, loc, maxLen) <= i < |m|
    ensures Filled(m, ks, args, loc, maxLen)[i] == m[i]
    decreases |ks|
  {
    hide Kept, Store, Fits, Onward, Piece;
    if ks != [] && !Stops(ks[0], loc, maxLen) {
      if ks[0].PercentKind? {
        NothingBeyond(Put(m, loc, "%"), ks[1..], args, loc + 1, maxLen, i);
      } else {
        NothingBeyond(Put(m, loc, Piece(ks[0], args[0], loc, maxLen)), ks[1..], args[1..],
            Onward(ks[0], args[0], loc, maxLen), maxLen, i);
      }
    }
  }

  /** Every store is made at or above the place the writer has come to. */
  lemma {:induction false} TopAbove(ks: seq<Kind>, args: seq<Arg>, loc: nat, maxLen: nat)
    requires FitAll(ks, args)
    ensures Top(ks, args, loc, maxLen) == 0 || Top(ks, args, loc, maxLen) > loc
    decreases |ks|
  {
    hide Kept, Store, Fits, Piece;
    if ks != [] && !Stops(ks[0], loc, maxLen) {
      if ks[0].PercentKind? {
        TopAbove(ks[1..], args, loc + 1, maxLen);
      } else {
        TopAbove(ks[1..], args[1..], Onward(ks[0], args[0], loc, maxLen), maxLen);
      }
    }
  }

  /** Outside the buffer only strings are stored, with their terminator. */
  lemma PieceOutside(k: Kind, a: Arg, loc: nat, maxLen: nat)
    requires Fits(k, a) && !Stops(k, loc, maxLen)
    ensures Reach(loc, Piece(k, a, loc, maxLen)) <= Onward(k, a, loc, maxLen)
    ensures var s := Piece(k, a, loc, maxLen);
            Reach(loc, s) > maxLen ==> s != "" && s[|s| - 1] == NUL && Onward(k, a, loc, maxLen) == loc + |s|
  {
    if loc < maxLen {
      StaysIn(k, a, loc, maxLen);
    }
  }

  lemma PutLast(m: string, at: nat, s: string)
    requires s != "" && at + |s| <= |m|
    ensures Put(m, at, s)[at + |s| - 1] == s[|s| - 1]
  {
  }

  lemma StoredPercent(m: string, ks: seq<Kind>, args: seq<Arg>, loc: nat, maxLen: nat)
    requires FitAll(ks, args) && Top(ks, args, loc, maxLen) > 0 && ks[0].PercentKind?
    ensures !Stops(ks[0], loc, maxLen) && FitAll(ks[1..], args)
    ensures Top(ks, args, loc, maxLen) == Max(loc + 1, Top(ks[1..], args, loc + 1, maxLen))
    ensures Filled(m, ks, args, loc, maxLen) == Filled(Put(m, loc, "%"), ks[1..], args, loc + 1, maxLen)
  {
  }

  lemma StoredArg(m: string, ks: seq<Kind>, args: seq<Arg>, loc: nat, maxLen: nat)
    requires FitAll(ks, args) && Top(ks, args, loc, maxLen) > 0 && !ks[0].PercentKind?
    ensures !Stops(ks[0], loc, maxLen) && args != [] && Fits(ks[0], args[0]) && FitAll(ks[1..], args[1..])
    ensures var s, on := Piece(ks[0], args[0], loc, maxLen), Onward(ks[0], args[0], loc, maxLen);
            && Top(ks, args, loc, maxLen) == Max(Reach(loc, s), Top(ks[1..], args[1..], on, maxLen))
            && Filled(m, ks, args, loc, maxLen) == Filled(Put(m, loc, s), ks[1..], args[1..], on, maxLen)
  {
  }

  /** A store behind the buffer leaves its mark: the last byte stored is a terminator,
      whatever was there before. */
  lemma {:induction false} MarkOutside(m: string, ks: seq<Kind>, args: seq<Arg>, loc: nat, maxLen: nat)
    requires FitAll(ks, args) && maxLen < Top(ks, args, loc, maxLen) <= |m|
    ensures Filled(m, ks, args, loc, maxLen)[Top(ks, args, loc, maxLen) - 1] == NUL
    decreases |ks|
  {
    hide Kept, Store, Fits, Piece, Onward, Put, FitAll;
    if ks[0].PercentKind? {
      StoredPercent(m, ks, args, loc, maxLen);
      hide Filled, Top;
      MarkOutside(Put(m, loc, "%"), ks[1..], args, loc + 1, maxLen);
    } else {
      StoredArg(m, ks, args, loc, maxLen);
      var s, on := Piece(ks[0], args[0], loc, maxLen), Onward(ks[0], args[0], loc, maxLen);
      hide Filled, Top;
      PieceOutside(ks[0], args[0], loc, maxLen);
      TopAbove(ks[1..], args[1..], on, maxLen);
      if Top(ks[1..], args[1..], on, maxLen) > maxLen {
        MarkOutside(Put(m, loc, s), ks[1..], args[1..], on, maxLen);
      } else {
        PutLast(m, loc, s);
        NothingBeyond(Put(m, loc, s), ks[1..], args[1..], on, maxLen, loc + |s| - 1);
      }
    }
  }

  // --------------------------------------------------------- records that fit

  lemma PutTwice(m: string, at: nat, s: string, t: string)
    ensures Put(Put(m, at, s), at + |s|, t) == Put(m, at, s + t)
    ensures Put(m, at, "") == m
  {
  }

  lemma PieceWhole(k: Kind, a: Arg, loc: nat, maxLen: nat)
    requires Fits(k, a) && loc + |Store(k, a)| <= maxLen
    ensures !Stops(k, loc, maxLen) && Piece(k, a, loc, maxLen) == Store(k, a)
    ensures Onward(k, a, loc, maxLen) == Reach(loc, Piece(k, a, loc, maxLen)) == loc + |Store(k, a)|
  {
  }

  /** With room for all of them the arguments are stored whole, one behind the other. */
  lemma {:induction false} FitsWhole(m: string, ks: seq<Kind>, args: seq<Arg>, loc: nat, maxLen: nat)
    requires FitAll(ks, args) && loc + |StoreAll(ks, args)| <= maxLen
    ensures End(ks, args, loc, maxLen) == loc + |StoreAll(ks, args)|
    ensures Filled(m, ks, args, loc, maxLen) == Put(m, loc, StoreAll(ks, args))
    ensures Reached(ks, args, loc, maxLen) == Offsets(ks, args, loc)
    ensures Top(ks, args, loc, maxLen) <= maxLen
    decreases |ks|
  {
    hide Kept, Store, Fits, Piece, Onward, Put;
    if ks == [] {
      PutTwice(m, loc, "", "");
    } else if ks[0].PercentKind? {
      FitsWhole(Put(m, loc, "%"), ks[1..], args, loc + 1, maxLen);
      PutTwice(m, loc, "%", StoreAll(ks[1..], args));
    } else {
      var s := Store(ks[0], args[0]);
      PieceWhole(ks[0], args[0], loc, maxLen);
      FitsWhole(Put(m, loc, s), ks[1..], args[1..], loc + |s|, maxLen);
      PutTwice(m, loc, s, StoreAll(ks[1..], args[1..]));
    }
  }

  // ----------------------------------------------------------- from the format on

  /** The copy of the format, cut to the buffer. */
  function Head(fmt: string, maxLen: nat): (s: string)
    requires maxLen > 0
    ensures |s| == Min(|fmt| + 1, maxLen)
  {
    var cut := fmt[..Min(|fmt|, maxLen - 1)];
    Text(cut) + if TrailingMark(cut) then [NUL, NUL] else [NUL]
  }

  /** The whole effect on memory. */
  function Memory(m: string, fmt: string, args: seq<Arg>, maxLen: nat): (r: string)
    requires maxLen > 0 && FitAll(Written(fmt, START), args)
    ensures |r| == |m|
  {
    Filled(Put(m, 0, Head(fmt, maxLen)), Written(fmt, START), args, Min(|fmt| + 1, maxLen), maxLen)
  }

  function Result(fmt: string, args: seq<Arg>, maxLen: nat): (n: nat)
    requires maxLen > 0 && FitAll(Written(fmt, START), args)
  {
    End(Written(fmt, START), args, Min(|fmt| + 1, maxLen), maxLen)
  }

  /** How much memory the writer needs to have behind it. */
  function Needed(fmt: string, args: seq<Arg>, maxLen: nat): (n: nat)
    requires maxLen > 0 && FitAll(Written(fmt, START), args)
  {
    Max(maxLen, Top(Written(fmt, START), args, Min(|fmt| + 1, maxLen), maxLen))
  }

  /** The conversions left when the buffer is full: what a caller has to look at. */
  function Unserved(fmt: string, args: seq<Arg>, maxLen: nat): (ks: seq<Kind>)
    requires maxLen > 0 && FitAll(Written(fmt, START), args)
  {
    Left(Written(fmt, START), args, Min(|fmt| + 1, maxLen), maxLen)
  }

  /**
   The writer keeps to its buffer, and its result to the buffer's length, if and only
   if the conversions left when the buffer is full do not start with a string, or start
   with one that an argument of fixed size follows.
   */
  predicate Contained(fmt: string, args: seq<Arg>, maxLen: nat)
    requires maxLen > 0 && FitAll(Written(fmt, START), args)
  {
    var ks := Unserved(fmt, args, maxLen);
    ks == [] || !ks[0].StrKind? || (|ks| >= 2 && !ks[1].StrKind?)
  }

  lemma ContainedExactly(fmt: string, args: seq<Arg>, maxLen: nat)
    requires maxLen > 0 && FitAll(Written(fmt, START), args)
    ensures Contained(fmt, args, maxLen) <==> Needed(fmt, args, maxLen) <= maxLen && Result(fmt, args, maxLen) <= maxLen
    ensures Needed(fmt, args, maxLen) > maxLen <==>
              var ks := Unserved(fmt, args, maxLen); |ks| >= 2 && ks[0].StrKind? && ks[1].StrKind?
  {
    hide Written, End, Top, Left, FitAll;
    OverrunExactly(Written(fmt, START), args, Min(|fmt| + 1, maxLen), maxLen);
  }

  /** In terms of memory: bytes behind the buffer are safe, whatever they are, exactly
      when no more memory than the buffer is needed. */
  lemma MemoryBehind(m: string, fmt: string, args: seq<Arg>, maxLen: nat)
    requires maxLen > 0 && FitAll(Written(fmt, START), args) && Needed(fmt, args, maxLen) <= |m|
    ensures Needed(fmt, args, maxLen) <= maxLen ==> Memory(m, fmt, args, maxLen)[maxLen..] == m[maxLen..]
    ensures Needed(fmt, args, maxLen) > maxLen ==> Memory(m, fmt, args, maxLen)[Needed(fmt, args, maxLen) - 1] == NUL
  {
    hide Written, End, Top, Left, FitAll, Filled, Head;
    var ks, loc, m1 := Written(fmt, START), Min(|fmt| + 1, maxLen), Put(m, 0, Head(fmt, maxLen));
    if Needed(fmt, args, maxLen) <= maxLen {
      forall i | maxLen <= i < |m| ensures Memory(m, fmt, args, maxLen)[i] == m[i] {
        NothingBeyond(m1, ks, args, loc, maxLen, i);
      }
    } else {
      MarkOutside(m1, ks, args, loc, maxLen);
    }
  }

  /** A record that fits is written whole. */
  lemma WholeRecord(m: string, fmt: string, args: seq<Arg>, maxLen: nat)
    requires maxLen > 0 && FitAll(Written(fmt, START), args) && |Image(fmt, args)| <= maxLen <= |m|
    ensures Result(fmt, args, maxLen) == |Image(fmt, args)| && Needed(fmt, args, maxLen) == maxLen
    ensures Memory(m, fmt, args, maxLen)[..|Image(fmt, args)|] == Image(fmt, args)
    ensures Reached(Written(fmt, START), args, Min(|fmt| + 1, maxLen), maxLen) ==
            Offsets(Written(fmt, START), args, |fmt| + 1)
  {
    hide Written, End, Top, Left, FitAll, Filled, StoreAll, Put, Text, TrailingMark;
    var ks := Written(fmt, START);
    var data := StoreAll(ks, args);
    HeadWhole(fmt, maxLen);
    assert Image(fmt, args) == Head(fmt, maxLen) + data;
    FitsWhole(Put(m, 0, Head(fmt, maxLen)), ks, args, |fmt| + 1, maxLen);
    PutTwice(m, 0, Head(fmt, maxLen), data);
    PutPrefix(m, Image(fmt, args));
  }

  lemma HeadWhole(fmt: string, maxLen: nat)
    requires maxLen > 0
    ensures var whole := Text(fmt) + if TrailingMark(fmt) then [NUL, NUL] else [NUL];
            |whole| == |fmt| + 1 && (|fmt| + 1 <= maxLen ==> Head(fmt, maxLen) == whole)
  {
    assert fmt[..|fmt|] == fmt;
  }

  lemma PutPrefix(m: string, s: string)
    requires |s| <= |m|
    ensures Put(m, 0, s)[..|s|] == s
  {
  }

  // ------------------------------------------------------------- failing inputs

  lemma OneString()
    ensures Written("%s", START) == [StrKind(0)]
  {
    var a, b := "%s", "s";
    assert a[1..] == b && b[1..] == "";
    assert Written(b, START.(inConv := true)) == [StrKind(0)] + Written("", START);
    assert Written(a, START) == [] + Written(b, START.(inConv := true));
  }

  lemma TwoStrings()
    ensures Written("%s%s", START) == [StrKind(0), StrKind(0)]
  {
    var a, b, c := "%s%s", "s%s", "%s";
    assert a[1..] == b && b[1..] == c;
    OneString();
    assert Written(b, START.(inConv := true)) == [StrKind(0)] + Written(c, START);
    assert Written(a, START) == [] + Written(b, START.(inConv := true));
  }

  /** A string that meets a full buffer takes the result past the buffer's length: "%s"
      fills 3 bytes by itself, and with any string s the result is 4 + |s|. */
  lemma ResultTooLong(s: string)
    requires CString(s)
    ensures FitAll(Written("%s", START), [StrArg(s)]) && Result("%s", [StrArg(s)], 3) == 4 + |s|
  {
    OneString();
    var args := [StrArg(s)];
    assert [StrKind(0)][1..] == [] && args[1..] == [];
    assert End([StrKind(0)], args, 3, 3) == End([], [], 3 + |s| + 1, 3);
  }

  /** The next string is then stored behind the buffer. */
  lemma StoredBehind(s: string, t: string)
    requires CString(s) && CString(t)
    ensures FitAll(Written("%s%s", START), [StrArg(s), StrArg(t)])
    ensures Needed("%s%s", [StrArg(s), StrArg(t)], 5) == 5 + |s| + 1 + |t| + 1
  {
    TwoStrings();
    var ks, args := [StrKind(0), StrKind(0)], [StrArg(s), StrArg(t)];
    assert ks[1..] == [StrKind(0)] && args[1..] == [StrArg(t)];
    assert Top([StrKind(0)], [StrArg(t)], 6 + |s|, 5) == 6 + |s| + |t| + 1;
    assert Top(ks, args, 5, 5) == Max(0, Top([StrKind(0)], [StrArg(t)], 6 + |s|, 5));
  }
}
