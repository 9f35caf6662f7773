/**
 The two walkers over log records: qb_vsnprintf_serialize fills a buffer,
 qb_vsnprintf_deserialize takes it apart again.
 */
module LogWalkers {
  import opened Common
  import opened LogFormat
  import opened LogSpace
  import opened LogPositions

  /** s[..len] is the C string at the start of s. */
  ghost predicate Terminated(s: string, len: nat) {
    len < |s| && CString(s[..len]) && s[len] == NUL
  }

  method Strchrnul(s: string, from: nat, ghost len: nat) returns (p: nat)
    requires Terminated(s, len) && from <= len
    ensures from <= p <= len && (p < len ==> s[p] == '%')
    ensures forall i :: from <= i < p ==> s[i] != '%'
  {
    p := from;
    assert forall i :: 0 <= i < len ==> s[i] == s[..len][i];
    while s[p] != '%' && s[p] != NUL
      invariant from <= p <= len
      invariant forall i :: from <= i < p ==> s[i] != '%'
      decreases len - p
    {
      p := p + 1;
    }
  }

  method Strlen(s: string, from: nat, ghost len: nat) returns (n: nat)
    requires from + len < |s| && CString(s[from..from + len]) && s[from + len] == NUL
    ensures n == len
  {
    n := 0;
    assert forall i :: from <= i < from + len ==> s[i] == s[from..from + len][i - from];
    while s[from + n] != NUL
      invariant n <= len
      decreases len - n
    {
      n := n + 1;
    }
  }

  // ---------------------------------------------------------------- writing

  /** Copies s into memory at `at`. */
  method Copy(a: array<char>, at: nat, s: string)
    requires at + |s| <= a.Length
    modifies a
    ensures a[..] == Put(old(a[..]), at, s)
  {
    forall i | 0 <= i < |s| {
      a[at + i] := s[i];
    }
  }

  /** strlcpy that means to return the number of characters written.  For no room at all
      it returns the length of the source instead, the limit having wrapped around. */
  method MyStrlcpy(dest: array<char>, at: nat, src: string, maxlen: nat) returns (n: nat)
    requires |src| < U64 && (maxlen > 0 ==> at + Min(|src|, maxlen - 1) + 1 <= dest.Length)
    modifies dest
    ensures n == if maxlen == 0 then |src| else Min(|src|, maxlen - 1)
    ensures dest[..] == Put(old(dest[..]), at, if maxlen == 0 then "" else src[..n] + [NUL])
  {
    var rc := |src|;
    if maxlen != 0 {
      Copy(dest, at, src[..Min(maxlen - 1, rc)] + [NUL]);
      n := Min(rc, maxlen - 1);
    } else {
      n := Min(rc, U64 - 1);
    }
    assert dest[..] == Put(old(dest[..]), at, if maxlen == 0 then "" else src[..n] + [NUL]);
  }

  /** The numeric cases of the writer: the size check and the memcpy. */
  method SaveNumber(mem: array<char>, maxLen: nat, at: nat, v: nat, size: nat) returns (ok: bool)
    requires maxLen <= mem.Length
    modifies mem
    ensures ok <==> at + size <= maxLen
    ensures mem[..] == if ok then Put(old(mem[..]), at, Bytes(v, size)) else old(mem[..])
  {
    ok := at + size <= maxLen;
    if ok {
      Copy(mem, at, Bytes(v, size));
    }
  }

  /** What a run of the writer comes to: memory, result and the places of its arguments. */
  datatype Goal = Goal(mem: string, end: nat, offsets: seq<nat>)

  /** The arguments left are the ones the rest of the format asks for, and storing them
      from here on leads to the goal. */
  ghost predicate Writing(fmt: string, format: nat, z: Scan, ap: seq<Arg>, mem: string, loc: nat, offs: seq<nat>,
                          goal: Goal, maxLen: nat) {
    format <= |fmt| &&
    var ks := Written(fmt[format..], z);
    FitAll(ks, ap) && maxLen <= |mem| && Top(ks, ap, loc, maxLen) <= |mem| && loc + Span(ks, ap) < U32 &&
    goal == Goal(Filled(mem, ks, ap, loc, maxLen), End(ks, ap, loc, maxLen), offs + Reached(ks, ap, loc, maxLen))
  }

  /** One argument and the rest of them. */
  lemma TakenSpace(ks: seq<Kind>, more: seq<Kind>, ap: seq<Arg>, mem: string, loc: nat, maxLen: nat)
    requires |ks| == 1 && !ks[0].PercentKind? && FitAll(ks + more, ap)
    ensures ap != [] && Fits(ks[0], ap[0]) && FitAll(more, ap[1..])
    ensures Stops(ks[0], loc, maxLen) ==>
              Filled(mem, ks + more, ap, loc, maxLen) == mem && End(ks + more, ap, loc, maxLen) == maxLen &&
              Reached(ks + more, ap, loc, maxLen) == []
    ensures !Stops(ks[0], loc, maxLen) ==>
              var s, on := Piece(ks[0], ap[0], loc, maxLen), Onward(ks[0], ap[0], loc, maxLen);
              && Filled(mem, ks + more, ap, loc, maxLen) == Filled(Put(mem, loc, s), more, ap[1..], on, maxLen)
              && End(ks + more, ap, loc, maxLen) == End(more, ap[1..], on, maxLen)
              && Reached(ks + more, ap, loc, maxLen) == [loc] + Reached(more, ap[1..], on, maxLen)
              && Top(ks + more, ap, loc, maxLen) == Max(Reach(loc, s), Top(more, ap[1..], on, maxLen))
    ensures Span(ks + more, ap) == (if ks[0].StrKind? then |Source(ap[0])| + 1 else Size(ks[0])) + Span(more, ap[1..])
  {
    hide Store, Fits, Piece, Onward, Stops;
    assert (ks + more)[1..] == more;
  }

  /** No argument moves the writer further than its span. */
  lemma OnwardSpan(k: Kind, a: Arg, loc: nat, maxLen: nat)
    requires Fits(k, a)
    ensures Onward(k, a, loc, maxLen) <= loc + if k.StrKind? then |Source(a)| + 1 else Size(k)
  {
  }

  /** One character of a format that is no second percent sign. */
  lemma WriteStep(fmt: string, format: nat, z: Scan, ap: seq<Arg>, mem: string, loc: nat, offs: seq<nat>, goal: Goal,
                  maxLen: nat)
    requires Writing(fmt, format, z, ap, mem, loc, offs, goal, maxLen) && format < |fmt| && !Escape(z, fmt[format])
    ensures var ks, z' := Takes(z, fmt[format]), Next(z, fmt[format]);
            if ks == [] then
              Writing(fmt, format + 1, z', ap, mem, loc, offs, goal, maxLen)
            else
              |ks| == 1 && ap != [] && Fits(ks[0], ap[0]) &&
              (ks[0].StrKind? ==> loc + |Source(ap[0])| + 1 < U32) &&
              if Stops(ks[0], loc, maxLen) then
                goal == Goal(mem, maxLen, offs)
              else
                var s := Piece(ks[0], ap[0], loc, maxLen);
                Reach(loc, s) <= |mem| &&
                Writing(fmt, format + 1, z', ap[1..], Put(mem, loc, s), Onward(ks[0], ap[0], loc, maxLen),
                    offs + [loc], goal, maxLen)
  {
    hide Next, Takes, Written, Store, Fits, Settled, Kinds, FitAll, Filled, End, Reached, Top, Span, Piece, Onward,
         Stops, Put;
    var s := fmt[format..];
    assert s[0] == fmt[format] && s[1..] == fmt[format + 1..];
    Step(s, z);
    var ks := Takes(z, s[0]);
    if ks != [] {
      TakenSpace(ks, Written(s[1..], Next(z, s[0])), ap, mem, loc, maxLen);
      OnwardSpan(ks[0], ap[0], loc, maxLen);
    }
  }

  lemma PercentSpace(more: seq<Kind>, ap: seq<Arg>, mem: string, loc: nat, maxLen: nat)
    requires FitAll([PercentKind] + more, ap)
    ensures FitAll(more, ap) && Span([PercentKind] + more, ap) == 1 + Span(more, ap)
    ensures loc + 1 > maxLen ==>
              Filled(mem, [PercentKind] + more, ap, loc, maxLen) == mem &&
                  End([PercentKind] + more, ap, loc, maxLen) == maxLen &&
              Reached([PercentKind] + more, ap, loc, maxLen) == []
    ensures loc + 1 <= maxLen ==>
              && Filled(mem, [PercentKind] + more, ap, loc, maxLen) ==
                  Filled(Put(mem, loc, "%"), more, ap, loc + 1, maxLen)
              && End([PercentKind] + more, ap, loc, maxLen) == End(more, ap, loc + 1, maxLen)
              && Reached([PercentKind] + more, ap, loc, maxLen) == Reached(more, ap, loc + 1, maxLen)
              && Top([PercentKind] + more, ap, loc, maxLen) == Max(loc + 1, Top(more, ap, loc + 1, maxLen))
  {
    assert ([PercentKind] + more)[1..] == more;
  }

  /** A second percent sign. */
  lemma WriteEscape(fmt: string, format: nat, z: Scan, ap: seq<Arg>, mem: string, loc: nat, offs: seq<nat>, goal: Goal,
                    maxLen: nat)
    requires Writing(fmt, format, z, ap, mem, loc, offs, goal, maxLen) && format < |fmt| && Escape(z, fmt[format])
    ensures if loc + 1 <= maxLen then Writing(fmt, format, START, ap, Put(mem, loc, "%"), loc + 1, offs, goal, maxLen)
            else goal == Goal(mem, maxLen, offs)
  {
    hide Next, Takes, Written, FitAll, Filled, End, Reached, Top, Span, Put;
    EscapeWritten(fmt[format..], z);
    PercentSpace(Written(fmt[format..], START), ap, mem, loc, maxLen);
  }

  lemma EscapeWritten(s: string, z: Scan)
    requires s != "" && Escape(z, s[0])
    ensures Written(s, z) == [PercentKind] + Written(s, START)
  {
    var ks := Written(s[1..], RESTART);
    assert Written(s, z) == [PercentKind] + ks;
    assert Written(s, START) == Takes(START, '%') + Written(s[1..], Next(START, '%'));
    assert Takes(START, '%') == [] && Next(START, '%') == RESTART;
    assert [] + ks == ks;
  }

  /** Between conversions both walkers look for the next percent sign. */
  lemma {:induction false} SkipTo(fmt: string, from: nat, p: nat, z: Scan)
    requires from <= p <= |fmt| && !z.inConv && forall i :: from <= i < p ==> fmt[i] != '%'
    ensures Written(fmt[from..], z) == Written(fmt[p..], z)
    ensures Kinds(fmt[from..], z) == Kinds(fmt[p..], z)
    decreases p - from
  {
    if from < p {
      SkipText(fmt[from..], z);
      assert fmt[from..][1..] == fmt[from + 1..];
      SkipTo(fmt, from + 1, p, z);
    }
  }

  /** The percent sign that starts a conversion. */
  lemma Enter(fmt: string, p: nat, z: Scan)
    requires p < |fmt| && !z.inConv && fmt[p] == '%'
    ensures Written(fmt[p..], z) == Written(fmt[p + 1..], z.(inConv := true, long := false))
    ensures Kinds(fmt[p..], z) == Kinds(fmt[p + 1..], z.(inConv := true, long := false))
  {
    assert fmt[p..][1..] == fmt[p + 1..];
    Step(fmt[p..], z);
  }

  /** What becomes of the copied format when its first mark is at i. */
  function Marked(fmt: string, i: nat): (r: string)
    requires i <= |fmt|
  {
    if i == |fmt| then fmt + [NUL]
    else if i + 1 < |fmt| then fmt[i := '|'] + [NUL]
    else fmt[i := NUL] + [NUL]
  }

  lemma MarkedText(fmt: string, i: nat)
    requires i <= |fmt| && XC !in fmt[..i] && (i < |fmt| ==> fmt[i] == XC)
    ensures Marked(fmt, i) == Text(fmt) + if TrailingMark(fmt) then [NUL, NUL] else [NUL]
  {
    BarredAt(fmt, i);
    if i + 1 < |fmt| {
      assert fmt[..|fmt| - 1][i] == XC;
      assert !TrailingMark(fmt);
    } else if i + 1 == |fmt| {
      assert TrailingMark(fmt);
      assert fmt[i := NUL] == fmt[..i] + [NUL];
    } else {
      assert fmt == fmt[..i];
      assert !TrailingMark(fmt);
    }
  }

  /** The first mark of the copied format is replaced. */
  method ReplaceMark(a: array<char>, fmt: string)
    requires CString(fmt) && |fmt| < a.Length && a[..|fmt| + 1] == fmt + [NUL]
    modifies a
    ensures a[..|fmt| + 1] == Text(fmt) + if TrailingMark(fmt) then [NUL, NUL] else [NUL]
    ensures a[|fmt| + 1..] == old(a[|fmt| + 1..])
  {
    hide TrailingMark, Barred, Text;
    var i := 0;
    ghost var was := a[..|fmt| + 1];
    assert forall j :: 0 <= j < |fmt| ==> a[j] == was[j] && was[j] == fmt[j];
    assert a[|fmt|] == was[|fmt|] == NUL;
    while a[i] != XC && a[i] != NUL
      invariant 0 <= i <= |fmt| && forall j :: 0 <= j < i ==> fmt[j] != XC
      decreases |fmt| - i
    {
      i := i + 1;
    }
    if a[i] == XC {
      a[i] := if a[i + 1] != NUL then '|' else NUL;
      assert a[..|fmt| + 1] == was[i := a[i]];
    }
    assert a[..|fmt| + 1] == Marked(fmt, i);
    MarkedText(fmt, i);
  }

  /** Where the first mark is. */
  lemma {:induction false} BarredAt(fmt: string, i: nat)
    requires i <= |fmt| && XC !in fmt[..i] && (i < |fmt| ==> fmt[i] == XC)
    ensures Barred(fmt) == if i < |fmt| then fmt[i := '|'] else fmt
  {
    if i > 0 {
      assert fmt[..i][0] == fmt[0] && fmt[1..][..i - 1] == fmt[..i][1..];
      BarredAt(fmt[1..], i - 1);
      assert fmt == [fmt[0]] + fmt[1..];
    }
  }

  /** The cases of the writer's switch that take an argument. */
  method SaveArg(mem: array<char>, maxLen: nat, location: nat, c: char, typeLong: bool, typeLongLong: bool,
                 precision: nat, arg: Arg, ghost z: Scan)
    returns (ok: bool, next: nat)
    requires z.inConv && z.long == (typeLong || typeLongLong) && z.precision == precision
    requires |Takes(z, c)| == 1 && Fits(Takes(z, c)[0], arg) && maxLen <= mem.Length
    requires var k := Takes(z, c)[0];
             && (k.StrKind? ==> location + |Source(arg)| + 1 < U32)
             && (!Stops(k, location, maxLen) ==> Reach(location, Piece(k, arg, location, maxLen)) <= mem.Length)
    modifies mem
    ensures ok <==> !Stops(Takes(z, c)[0], location, maxLen)
    ensures ok ==> next == Onward(Takes(z, c)[0], arg, location, maxLen)
    ensures mem[..] == if ok then Put(old(mem[..]), location, Piece(Takes(z, c)[0], arg, location, maxLen))
            else old(mem[..])
  {
    hide Bytes, CString, Pow256, Put;
    next := location;
    if c == '*' {
      ok := SaveNumber(mem, maxLen, location, arg.v, 4);
      next := location + 4;
    } else if IsIntConv(c) {
      if typeLong {
        ok := SaveNumber(mem, maxLen, location, arg.v, 8);
        next := location + 8;
      } else if typeLongLong {
        ok := SaveNumber(mem, maxLen, location, arg.v, 8);
        next := location + 8;
      } else {
        ok := SaveNumber(mem, maxLen, location, arg.v, 4);
        next := location + 4;
      }
    } else if IsDoubleConv(c) {
      ok := SaveNumber(mem, maxLen, location, arg.v, 8);
      next := location + 8;
    } else if c == 'c' {
      ok := SaveNumber(mem, maxLen, location, arg.v % 256, 1);
      next := location + 1;
    } else if c == 's' {
      next := SaveString(mem, maxLen, location, precision, arg);
      ok := true;
    } else {
      ok := SaveNumber(mem, maxLen, location, arg.v, 8);
      next := location + 8;
    }
  }

  /** A string argument.  Nothing is checked: the room left is an unsigned difference,
      which wraps around once the location is past the end of the buffer. */
  method SaveString(mem: array<char>, maxLen: nat, location: nat, precision: nat, arg: Arg) returns (next: nat)
    requires Fits(StrKind(precision), arg) && location + |Source(arg)| + 1 < U32
    requires Reach(location, Piece(StrKind(precision), arg, location, maxLen)) <= mem.Length
    modifies mem
    ensures next == Onward(StrKind(precision), arg, location, maxLen)
    ensures mem[..] == Put(old(mem[..]), location, Piece(StrKind(precision), arg, location, maxLen))
  {
    hide CString, Put;
    var room := if location <= maxLen then maxLen - location else U64 + maxLen - location;
    var src := if arg.NullStrArg? then "(null)" else arg.s;
    var len := if arg.NullStrArg? || precision == 0 then |src| + 1 else precision + 1;
    ghost var kept := Kept(precision, arg);
    assert kept == src[..Min(|src|, len - 1)];
    if room > 0 {
      assert Min(|src|, Min(len, room) - 1) == Min(|kept|, room - 1);
      assert kept[..Min(|kept|, room - 1)] == src[..Min(|src|, Min(len, room) - 1)];
    }
    var n := MyStrlcpy(mem, location, src, Min(len, room));
    next := location + n + 1;
  }

  /** The characters that take an argument. */
  predicate IsTaking(c: char) {
    c == '*' || IsIntConv(c) || IsDoubleConv(c) || c == 'c' || c == 's' || c == 'p'
  }

  /** The branches of both switches. */
  lemma Branches(z: Scan, c: char)
    requires z.inConv
    ensures if IsTaking(c) then |Takes(z, c)| == 1 else Takes(z, c) == []
    ensures IsFlag(c) || c == '*' ==> Next(z, c) == z
    ensures c == '.' ==> Next(z, c) == z.(dotted := true)
    ensures IsDigit(c) ==>
              Next(z, c) == if z.dotted then z.(precision := 10 * z.precision + (c as int - '0' as int)) else z
    ensures IsLength(c) ==> Next(z, c) == z.(long := true)
    ensures !(IsFlag(c) || c == '*' || c == '.' || IsDigit(c) || IsLength(c)) ==> Next(z, c) == z.(inConv := false)
  {
  }

  /** A conversion has ended at a character that is no percent sign: whether it is
      looked at again makes no difference. */
  lemma Linger(fmt: string, format: nat, z: Scan, ap: seq<Arg>, mem: string, loc: nat, offs: seq<nat>, goal: Goal,
               maxLen: nat)
    requires format < |fmt| && !z.inConv && fmt[format] != '%'
    requires Writing(fmt, format + 1, z, ap, mem, loc, offs, goal, maxLen)
    ensures Writing(fmt, format, z.(long := false), ap, mem, loc, offs, goal, maxLen)
  {
    hide Next, Takes, Written, FitAll, Filled, End, Reached, Top, Span;
    SkipTo(fmt, format, format + 1, z);
    Outside(fmt[format..], z);
  }

  lemma Ended(fmt: string, format: nat, z: Scan, ap: seq<Arg>, mem: string, loc: nat, offs: seq<nat>, goal: Goal,
              maxLen: nat)
    requires !z.inConv && Writing(fmt, format, z, ap, mem, loc, offs, goal, maxLen)
    ensures Writing(fmt, format, z.(long := false), ap, mem, loc, offs, goal, maxLen)
  {
    hide Next, Takes, Written, FitAll, Filled, End, Reached, Top, Span;
    Outside(fmt[format..], z);
  }

  /** Outside a conversion the length modifier does not matter. */
  lemma {:induction false} Outside(fmt: string, z: Scan)
    requires !z.inConv
    ensures Written(fmt, z) == Written(fmt, z.(long := false))
    ensures Kinds(fmt, z) == Kinds(fmt, z.(long := false))
    decreases |fmt|
  {
    if fmt != "" && fmt[0] != '%' {
      Outside(fmt[1..], z);
    }
  }

  /** At the end of the format nothing is left to write. */
  lemma WriteEnd(fmt: string, z: Scan, y: Scan, ap: seq<Arg>, mem: string, loc: nat, offs: seq<nat>, goal: Goal,
                 maxLen: nat)
    requires Writing(fmt, |fmt|, z, ap, mem, loc, offs, goal, maxLen)
    ensures goal == Goal(mem, loc, offs) && Writing(fmt, |fmt|, y, ap, mem, loc, offs, goal, maxLen)
  {
    assert fmt[|fmt|..] == "";
  }

  lemma WriteSkip(fmt: string, format: nat, p: nat, z: Scan, ap: seq<Arg>, mem: string, loc: nat, offs: seq<nat>,
                  goal: Goal, maxLen: nat)
    requires Writing(fmt, format, z, ap, mem, loc, offs, goal, maxLen) && !z.inConv && format <= p <= |fmt|
    requires (forall i :: format <= i < p ==> fmt[i] != '%') && (p < |fmt| ==> fmt[p] == '%')
    ensures Writing(fmt, p, z, ap, mem, loc, offs, goal, maxLen)
    ensures p < |fmt| ==> Writing(fmt, p + 1, z.(inConv := true, long := false), ap, mem, loc, offs, goal, maxLen)
  {
    hide Next, Takes, Written, FitAll, Filled, End, Reached, Top, Span;
    SkipTo(fmt, format, p, z);
    if p < |fmt| {
      Enter(fmt, p, z);
    }
  }

  /** The goal of a whole run. */
  ghost function Whole(m: string, fmt: string, args: seq<Arg>, maxLen: nat): (goal: Goal)
    requires maxLen > 0 && FitAll(Written(fmt, START), args)
  {
    Goal(Memory(m, fmt, args, maxLen), Result(fmt, args, maxLen),
        Reached(Written(fmt, START), args, Min(|fmt| + 1, maxLen), maxLen))
  }

  lemma WriteStart(m: string, fmt: string, args: seq<Arg>, maxLen: nat)
    requires maxLen > 0 && FitAll(Written(fmt, START), args)
    requires Needed(fmt, args, maxLen) <= |m| && |fmt| + 1 + Span(Written(fmt, START), args) < U32
    ensures Writing(fmt, 0, START, args, Put(m, 0, Head(fmt, maxLen)), Min(|fmt| + 1, maxLen), [],
            Whole(m, fmt, args, maxLen), maxLen)
  {
    hide Written, FitAll, Filled, End, Reached, Top, Span, Put, Head;
    assert fmt[0..] == fmt;
  }

  /** An argument is saved; the format is stepped on by some of the cases only. */
  method SaveTaken(mem: array<char>, maxLen: nat, fmt: string, from: nat, at: nat,
                   c: char, typeLong: bool, typeLongLong: bool, precision: nat,
                   args: seq<Arg>, ghost z: Scan, ghost offs: seq<nat>, ghost goal: Goal)
    returns (ok: bool, format: nat, location: nat, ap: seq<Arg>, ghost offsets: seq<nat>)
    requires z.inConv && z.long == (typeLong || typeLongLong) && z.precision == precision && maxLen <= mem.Length
    requires from < |fmt| && fmt[from] == c && IsTaking(c)
    requires Writing(fmt, from, z, args, mem[..], at, offs, goal, maxLen)
    modifies mem
    ensures !ok ==> goal == Goal(mem[..], maxLen, offsets)
    ensures ok ==> format == if c == 'c' || c == 's' || c == 'p' then from else from + 1
    ensures ok ==> Writing(fmt, format, if c == '*' then z else z.(inConv := false, long := false), ap,
                           mem[..], location, offsets, goal, maxLen)
  {
    hide Next, Takes, Store, Fits, Writing, Written, FitAll, Kept, Piece, Onward, Stops, Put;
    format, location, ap, offsets := from, at, args, offs;
    Branches(z, c);
    WriteStep(fmt, format, z, ap, mem[..], at, offs, goal, maxLen);
    ok, location := SaveArg(mem, maxLen, location, c, typeLong, typeLongLong, precision, ap[0], z);
    if !ok {
      return;
    }
    ap, offsets := ap[1..], offs + [at];
    if c == '*' || IsIntConv(c) || IsDoubleConv(c) {
      format := format + 1;
      if c != '*' {
        Ended(fmt, format, z.(inConv := false), ap, mem[..], location, offsets, goal, maxLen);
      }
    } else {
      Linger(fmt, format, z.(inConv := false), ap, mem[..], location, offsets, goal, maxLen);
    }
  }

  /** One conversion, from behind its percent sign. */
  method SaveConversion(mem: array<char>, maxLen: nat, fmt: string, from: nat, at: nat,
                        args: seq<Arg>, dotted0: bool, precision0: nat,
                        ghost offs: seq<nat>, ghost goal: Goal)
    returns (ok: bool, format: nat, location: nat, ap: seq<Arg>, dotted: bool, precision: nat, ghost offsets: seq<nat>)
    requires CString(fmt) && from <= |fmt| && maxLen <= mem.Length
    requires Writing(fmt, from, Scan(true, false, dotted0, precision0), args, mem[..], at, offs, goal, maxLen)
    modifies mem
    ensures !ok ==> goal == Goal(mem[..], maxLen, offsets)
    ensures ok ==> from <= format <= |fmt| &&
                   Writing(fmt, format, Scan(false, false, dotted, precision), ap, mem[..], location, offsets, goal,
                       maxLen)
  {
    hide Next, Takes, Store, Fits, Writing, Written, FitAll, Kept, Piece, Onward, Stops, Put;
    format, location, ap, dotted, precision, offsets := from, at, args, dotted0, precision0, offs;
    var s := fmt + [NUL];
    var typeLong, typeLongLong, reprocess := false, false, true;
    ok := true;
    while reprocess
      invariant from <= format <= |fmt| && ok
      invariant Writing(fmt, format, Scan(reprocess, reprocess && (typeLong || typeLongLong), dotted, precision), ap,
                        mem[..], location, offsets, goal, maxLen)
      decreases reprocess, |fmt| - format
    {
      var c := s[format];
      ghost var z := Scan(true, typeLong || typeLongLong, dotted, precision);
      ghost var m := mem[..];
      Branches(z, c);
      if format < |fmt| && c != '%' && !IsTaking(c) {
        WriteStep(fmt, format, z, ap, m, location, offsets, goal, maxLen);
      }
      if IsFlag(c) {
        format := format + 1;
      } else if c == '.' {
        format, dotted := format + 1, true;
      } else if IsDigit(c) {
        if dotted {
          precision := precision * 10 + (c as int - '0' as int);
        }
        format := format + 1;
      } else if c == 'l' {
        format, typeLong := format + 1, true;
        if s[format] == 'l' {
          z := z.(long := true);
          Branches(z, 'l');
          WriteStep(fmt, format, z, ap, m, location, offsets, goal, maxLen);
          typeLong, typeLongLong, format := false, true, format + 1;
        }
      } else if c == 'z' || c == 't' || c == 'j' {
        format, typeLongLong := format + 1, true;
      } else if IsTaking(c) {
        ok, format, location, ap, offsets :=
          SaveTaken(mem, maxLen, fmt, format, location, c, typeLong, typeLongLong, precision, ap, z, offsets, goal);
        if !ok {
          return;
        }
        reprocess := c == '*';
      } else if c == '%' {
        WriteEscape(fmt, format, z, ap, m, location, offsets, goal, maxLen);
        if location + 1 > maxLen {
          ok := false;
          return;
        }
        Copy(mem, location, "%");
        location, precision, dotted, reprocess := location + 1, 0, false, false;
      } else {
        reprocess := false;
        if format < |fmt| {
          Linger(fmt, format, z.(inConv := false), ap, m, location, offsets, goal, maxLen);
        } else {
          WriteEnd(fmt, z, Scan(false, false, dotted, precision), ap, m, location, offsets, goal, maxLen);
        }
      }
    }
  }

  /**
   Writes the format and its arguments into a buffer of `maxLen` bytes at the start of
   `mem`, for every size of buffer: memory and result are as `LogSpace` describes, and a
   record that fits is written whole.  `offsets` tells where each argument went.
   */
  method Serialize(mem: array<char>, maxLen: nat, fmt: string, args: seq<Arg>) returns (n: nat, ghost offsets: seq<nat>)
    requires maxLen > 0 && CString(fmt) && FitAll(Written(fmt, START), args)
    requires Needed(fmt, args, maxLen) <= mem.Length && |fmt| + 1 + Span(Written(fmt, START), args) < U32
    modifies mem
    ensures n == Result(fmt, args, maxLen) && mem[..] == Memory(old(mem[..]), fmt, args, maxLen)
    ensures |Image(fmt, args)| <= maxLen ==>
              n == |Image(fmt, args)| && mem[..n] == Image(fmt, args) &&
                  offsets == Offsets(Written(fmt, START), args, |fmt| + 1)
  {
    hide Next, Takes, Written, StoreAll, Store, Fits, Offsets, FitAll, Text, TrailingMark, Image, Writing, Span, Top,
         Filled, Put, Memory, Result, Reached;
    ghost var m := mem[..];
    ghost var goal := Whole(m, fmt, args, maxLen);
    var location: nat := CopyFormat(mem, maxLen, fmt);
    var ap, s := args, fmt + [NUL];
    assert s[..|fmt|] == fmt;
    offsets := [];
    var format: nat := 0;
    var dotted, precision: nat := false, 0;
    WriteStart(m, fmt, args, maxLen);
    if |Image(fmt, args)| <= maxLen {
      WholeRecord(m, fmt, args, maxLen);
    }
    while true
      invariant format <= |fmt|
      invariant Writing(fmt, format, Scan(false, false, dotted, precision), ap, mem[..], location, offsets, goal,
                maxLen)
      decreases |fmt| - format
    {
      ghost var z := Scan(false, false, dotted, precision);
      var p := Strchrnul(s, format, |fmt|);
      assert forall i :: format <= i < p ==> fmt[i] == s[i];
      WriteSkip(fmt, format, p, z, ap, mem[..], location, offsets, goal, maxLen);
      if s[p] == NUL {
        WriteEnd(fmt, z, z, ap, mem[..], location, offsets, goal, maxLen);
        break;
      }
      var ok;
      ok, format, location, ap, dotted, precision, offsets :=
        SaveConversion(mem, maxLen, fmt, p + 1, location, ap, dotted, precision, offsets, goal);
      if !ok {
        assert mem[..maxLen] == mem[..][..maxLen];
        return maxLen, offsets;
      }
    }
    n := location;
    assert n <= mem.Length ==> mem[..n] == mem[..][..n];
  }

  /** The copy of the format, with its mark replaced. */
  method CopyFormat(mem: array<char>, maxLen: nat, fmt: string) returns (location: nat)
    requires CString(fmt) && 0 < maxLen <= mem.Length && |fmt| < U64
    modifies mem
    ensures location == Min(|fmt| + 1, maxLen)
    ensures mem[..] == Put(old(mem[..]), 0, Head(fmt, maxLen))
  {
    hide Text, TrailingMark;
    var copied := MyStrlcpy(mem, 0, fmt, maxLen);
    location := copied + 1;
    assert mem[..location] == fmt[..copied] + [NUL];
    ReplaceMark(mem, fmt[..copied]);
  }

  // ---------------------------------------------------------------- reading

  /** A record, text and data, and what is to be recovered from it.  Nothing is known
      of the bytes in `rest`, which follow the data. */
  datatype Target = Target(text: string, buf: string, rest: string, args: seq<Arg>, offsets: seq<nat>)

  /** The data from `pos` on are the arguments `ap`, which the rest of the text asks
      for; what is read so far, completed with them, is everything. */
  ghost predicate Reading(t: Target, format: nat, z: Scan, ap: seq<Arg>, pos: nat, found: seq<Arg>, offs: seq<nat>) {
    format <= |t.text| && pos <= |t.buf| && FitAll(Kinds(t.text[format..], z), ap) &&
    t.buf[pos..] == StoreAll(Kinds(t.text[format..], z), ap) + t.rest &&
    found + RestoredAll(Kinds(t.text[format..], z), ap) == t.args &&
    offs + Offsets(Kinds(t.text[format..], z), ap, pos) == t.offsets
  }

  lemma ReadStep(t: Target, format: nat, z: Scan, ap: seq<Arg>, pos: nat, found: seq<Arg>, offs: seq<nat>)
    requires Reading(t, format, z, ap, pos, found, offs) && format < |t.text|
    ensures var ks, z' := Takes(z, t.text[format]), Next(z, t.text[format]);
            if ks == [] then
              Reading(t, format + 1, z', ap, pos, found, offs)
            else
              |ks| == 1 && ap != [] && Fits(ks[0], ap[0]) &&
              var item := Store(ks[0], ap[0]);
              pos + |item| <= |t.buf| && t.buf[pos..pos + |item|] == item &&
              Reading(t, format + 1, z', ap[1..], pos + |item|, found + [Restored(ks[0], ap[0])], offs + [pos])
  {
    hide Next, Takes, Written, Store, Fits, Settled, Kinds, FitAll, StoreAll, Offsets, RestoredAll, Restored;
    var s := t.text[format..];
    assert s[0] == t.text[format] && s[1..] == t.text[format + 1..];
    if Escape(z, s[0]) {
      StepEscape(s, z);
      NoTake(z);
    } else {
      Step(s, z);
      var ks := Takes(z, s[0]);
      if ks != [] {
        var more := Kinds(s[1..], Next(z, s[0]));
        TakenStored(ks, more, ap, pos);
        var n := |Store(ks[0], ap[0])|;
        assert t.buf[pos..][..n] == Store(ks[0], ap[0]) && t.buf[pos..][n..] == StoreAll(more, ap[1..]) + t.rest;
      }
    }
  }

  lemma NoTake(z: Scan)
    ensures Takes(z, '%') == []
  {
  }

  lemma ReadSkip(t: Target, format: nat, p: nat, z: Scan, ap: seq<Arg>, pos: nat, found: seq<Arg>, offs: seq<nat>)
    requires Reading(t, format, z, ap, pos, found, offs) && !z.inConv && format <= p <= |t.text|
    requires (forall i :: format <= i < p ==> t.text[i] != '%') && (p < |t.text| ==> t.text[p] == '%')
    ensures Reading(t, p, z, ap, pos, found, offs)
    ensures p < |t.text| ==> Reading(t, p + 1, z.(inConv := true, long := false), ap, pos, found, offs)
  {
    hide Next, Takes, Kinds, StoreAll, FitAll, Offsets, RestoredAll;
    SkipTo(t.text, format, p, z);
    if p < |t.text| {
      Enter(t.text, p, z);
    }
  }

  /** At the end of the text everything is recovered. */
  lemma ReadEnd(t: Target, z: Scan, y: Scan, ap: seq<Arg>, pos: nat, found: seq<Arg>, offs: seq<nat>)
    requires Reading(t, |t.text|, z, ap, pos, found, offs)
    ensures found == t.args && offs == t.offsets && Reading(t, |t.text|, y, ap, pos, found, offs)
  {
    assert t.text[|t.text|..] == "";
  }

  lemma ReadLinger(t: Target, format: nat, z: Scan, ap: seq<Arg>, pos: nat, found: seq<Arg>, offs: seq<nat>)
    requires format < |t.text| && !z.inConv && t.text[format] != '%'
    requires Reading(t, format + 1, z, ap, pos, found, offs)
    ensures Reading(t, format, z, ap, pos, found, offs)
  {
    hide Next, Takes, Kinds, StoreAll, FitAll, Offsets, RestoredAll;
    SkipTo(t.text, format, format + 1, z);
  }

  /** memcpy of a number out of the record. */
  method LoadNumber(buf: string, pos: nat, size: nat, ghost v: nat) returns (r: nat)
    requires pos + size <= |buf| && buf[pos..pos + size] == Bytes(v, size) && v < Pow256(size)
    ensures r == v
  {
    NumberOfBytes(v, size);
    r := Number(buf[pos..pos + size]);
  }

  method LoadString(buf: string, pos: nat, ghost kept: string) returns (found: Arg, next: nat)
    requires CString(kept) && pos + |kept| + 1 <= |buf| && buf[pos..pos + |kept| + 1] == kept + [NUL]
    ensures found == StrArg(kept) && next == pos + |kept| + 1
  {
    ghost var item := buf[pos..pos + |kept| + 1];
    assert forall i :: pos <= i < pos + |item| ==> buf[i] == item[i - pos];
    assert item[|kept|] == NUL;
    assert buf[pos..pos + |kept|] == kept;
    var len := Strlen(buf, pos, |kept|);
    found, next := StrArg(buf[pos..pos + len]), pos + len + 1;
  }

  /** The cases of the reader's switch that take an argument. */
  method LoadArg(buf: string, pos: nat, c: char, typeLong: bool, typeLongLong: bool, ghost z: Scan, ghost arg: Arg)
    returns (found: Arg, next: nat)
    requires z.inConv && z.long == (typeLong || typeLongLong) && |Takes(z, c)| == 1 && Fits(Takes(z, c)[0], arg)
    requires var item := Store(Takes(z, c)[0], arg); pos + |item| <= |buf| && buf[pos..pos + |item|] == item
    ensures found == Restored(Takes(z, c)[0], arg) && next == pos + |Store(Takes(z, c)[0], arg)|
  {
    hide Bytes, CString, Pow256;
    var v;
    if c == '*' {
      v := LoadNumber(buf, pos, 4, arg.v);
      found, next := IntArg(v), pos + 4;
    } else if IsIntConv(c) {
      if typeLong {
        v := LoadNumber(buf, pos, 8, arg.v);
        found, next := LongArg(v), pos + 8;
      } else if typeLongLong {
        v := LoadNumber(buf, pos, 8, arg.v);
        found, next := LongArg(v), pos + 8;
      } else {
        v := LoadNumber(buf, pos, 4, arg.v);
        found, next := IntArg(v), pos + 4;
      }
    } else if IsDoubleConv(c) {
      v := LoadNumber(buf, pos, 8, arg.v);
      found, next := DoubleArg(v), pos + 8;
    } else if c == 'c' {
      ByteFits(arg.v);
      v := LoadNumber(buf, pos, 1, arg.v % 256);
      found, next := CharArg(v), pos + 1;
    } else if c == 's' {
      found, next := LoadString(buf, pos, Kept(z.precision, arg));
    } else {
      v := LoadNumber(buf, pos, 8, arg.v);
      found, next := PtrArg(v), pos + 8;
    }
  }

  lemma ByteFits(v: nat)
    ensures v % 256 < Pow256(1)
  {
    assert Pow256(1) == 256 * Pow256(0);
  }

  /** Takes a record apart: the arguments and where they were found.  The text comes
      from the record itself; what the record was made of is known to the proof only. */
  method Deserialize(buf: string, ghost text: string, ghost args: seq<Arg>, ghost rest: string)
    returns (found: seq<Arg>, offsets: seq<nat>)
    requires CString(text) && FitAll(Kinds(text, START), args)
    requires buf == text + [NUL] + StoreAll(Kinds(text, START), args) + rest
    ensures found == RestoredAll(Kinds(text, START), args)
    ensures offsets == Offsets(Kinds(text, START), args, |text| + 1)
    ensures offsets == Places(Kinds(text, START), buf, |text| + 1)
  {
    hide Next, Takes, Kinds, StoreAll, Store, Fits, Offsets, FitAll, RestoredAll, Restored, Reading, Kept, Places;
    assert buf[..|text|] == text && buf[|text|] == NUL;
    var len := Strlen(buf, 0, |text|);
    var pos: nat, format: nat := len + 1, 0;
    ghost var z, ap := START, args;
    found, offsets := [], [];
    ghost var t := Target(text, buf, rest, RestoredAll(Kinds(text, START), args),
        Offsets(Kinds(text, START), args, |text| + 1));
    ReadStart(t, args);
    assert buf[|text| + 1..] == StoreAll(Kinds(text, START), args) + rest;
    OffsetsArePlaces(Kinds(text, START), args, buf, |text| + 1, rest);
    while true
      invariant format <= |text| && !z.inConv && Reading(t, format, z, ap, pos, found, offsets)
      decreases |text| - format
    {
      var p := Strchrnul(buf, format, |text|);
      assert forall i :: 0 <= i < |text| ==> text[i] == buf[i];
      ReadSkip(t, format, p, z, ap, pos, found, offsets);
      if buf[p] == NUL {
        ReadEnd(t, z, z, ap, pos, found, offsets);
        return;
      }
      z := z.(inConv := true, long := false);
      format, pos, found, offsets, z, ap := LoadConversion(t, buf, p + 1, pos, found, offsets, z, ap);
    }
  }

  lemma ReadStart(t: Target, args: seq<Arg>)
    requires FitAll(Kinds(t.text, START), args)
    requires t.buf == t.text + [NUL] + StoreAll(Kinds(t.text, START), args) + t.rest
    requires t.args == RestoredAll(Kinds(t.text, START), args)
    requires t.offsets == Offsets(Kinds(t.text, START), args, |t.text| + 1)
    ensures Reading(t, 0, START, args, |t.text| + 1, [], [])
  {
    hide Kinds, StoreAll, Offsets, FitAll, RestoredAll;
    assert t.text[0..] == t.text;
    assert t.buf[|t.text| + 1..] == StoreAll(Kinds(t.text, START), args) + t.rest;
  }

  /** One conversion, from behind its percent sign. */
  method LoadConversion(ghost t: Target, buf: string, from: nat, at: nat, found0: seq<Arg>, offsets0: seq<nat>,
                        ghost z0: Scan, ghost args: seq<Arg>)
    returns (format: nat, pos: nat, found: seq<Arg>, offsets: seq<nat>, ghost z: Scan, ghost ap: seq<Arg>)
    requires t.buf == buf && Terminated(buf, |t.text|) && buf[..|t.text|] == t.text
    requires from <= |t.text| && z0.inConv && !z0.long && Reading(t, from, z0, args, at, found0, offsets0)
    ensures from <= format <= |t.text| && !z.inConv && Reading(t, format, z, ap, pos, found, offsets)
  {
    hide Next, Takes, Store, Fits, Reading, Restored, Kept;
    format, pos, found, offsets, z, ap := from, at, found0, offsets0, z0, args;
    assert forall i :: 0 <= i < |t.text| ==> t.text[i] == buf[i];
    var typeLong, typeLongLong, reprocess := false, false, true;
    while reprocess
      invariant from <= format <= |t.text| && z.inConv == reprocess &&
                (reprocess ==> z.long == (typeLong || typeLongLong))
      invariant Reading(t, format, z, ap, pos, found, offsets)
      decreases reprocess, |t.text| - format
    {
      var c := buf[format];
      ghost var y := z;
      Branches(z, c);
      if c == NUL {
        ReadEnd(t, z, z.(inConv := false), ap, pos, found, offsets);
        z := z.(inConv := false);
      } else {
        ReadStep(t, format, z, ap, pos, found, offsets);
        z := Next(z, c);
      }
      if IsFlag(c) || c == '.' || IsDigit(c) {
        format := format + 1;
      } else if c == 'l' {
        format, typeLong := format + 1, true;
        if buf[format] == 'l' {
          typeLong, typeLongLong := false, true;
        }
      } else if c == 'z' {
        format, typeLong, typeLongLong := format + 1, false, true;
      } else if c == 't' || c == 'j' {
        format, typeLongLong := format + 1, true;
      } else if IsTaking(c) {
        var arg;
        offsets := offsets + [pos];
        arg, pos := LoadArg(buf, pos, c, typeLong, typeLongLong, y, ap[0]);
        found, ap, format := found + [arg], ap[1..], format + 1;
        reprocess := c == '*';
      } else if c == '%' {
        format, reprocess := format + 1, false;
      } else {
        reprocess := false;
        if c != NUL {
          ReadLinger(t, format, z, ap, pos, found, offsets);
        }
      }
    }
  }

  // ------------------------------------------------------------- round trip

  /** What the writer puts into a large enough buffer, the reader takes out again, and
      each argument is found where it was put, for every format that is in step. */
  method RoundTrip(buffer: array<char>, fmt: string, args: seq<Arg>)
    returns (found: seq<Arg>, offsets: seq<nat>, ghost put: seq<nat>)
    requires CString(fmt) && FitAll(Written(fmt, START), args) && InStep(fmt)
    requires |Image(fmt, args)| <= buffer.Length && |fmt| + 1 + Span(Written(fmt, START), args) < U32
    modifies buffer
    ensures found == RestoredAll(Written(fmt, START), args)
    ensures offsets == put == Offsets(Written(fmt, START), args, |fmt| + 1)
    ensures var t := fmt[..PlainLen(fmt, START)];
            var js := Convs(t, |t|);
            |js| == |args| == |found| && forall i :: 0 <= i < |js| ==> GivenBack(t, js[i], args[i], found[i])
  {
    hide PlainLen, Convs, GivenBack, Kinds, Written, InStep, Image, StoreAll, RestoredAll, Offsets, FitAll, Text, Span,
         Needed, Memory, Result, Places;
    WholeSize(fmt, args);
    WholeRecord(buffer[..], fmt, args, buffer.Length);
    var n;
    n, put := Serialize(buffer, buffer.Length, fmt, args);
    ghost var rest := InStepImage(fmt, args);
    found, offsets := Deserialize(buffer[..n], Text(fmt), args, rest);
    AllGivenBackInStep(fmt, args);
  }

  lemma WholeSize(fmt: string, args: seq<Arg>)
    requires FitAll(Written(fmt, START), args)
    ensures |Image(fmt, args)| > 0
  {
    hide Written, StoreAll;
  }
}
