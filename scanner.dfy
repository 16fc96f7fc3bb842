/**
 * The escape-sequence scanner: a byte-at-a-time state machine over the
 * parser modes of the terminal (the `state_fun_*` functions), with up to
 * ten decimal parameters accumulated in 32-bit unsigned slots.
 *
 * `Advance` is the transition of one byte: the new scanner state and what
 * the terminal must do (plot a glyph, reset, or carry out a completed
 * control sequence).
 */
module Scanner {
  import opened Bytes

  /** Capacity of the parameter array. */
  const MAX_PARAMS: nat := 10

  /** The function the scanner will call on the next byte. */
  datatype Mode = NormalText | WaitSquareBracket | SelectEscape | ReadDigit | Double

  datatype ScanState = ScanState(next: Mode, params: seq<u32>, size: nat, privateMode: byte)

  /**
   * A parameter count only exists while digits are being read: in every
   * other mode it is zero, and it never exceeds the capacity.
   */
  predicate Wellformed(s: ScanState)
  {
    |s.params| == MAX_PARAMS && s.size <= MAX_PARAMS && (s.next == ReadDigit <==> s.size >= 1)
  }

  /** The zero-initialised scanner of a fresh terminal. */
  const Initial: ScanState := ScanState(NormalText, seq(MAX_PARAMS, _ => 0), 0, 0)

  /** What the terminal has to do after the scanner has taken a byte. */
  datatype Action =
    | Nothing
    | Plot(ch: byte)
    | Reset
    | Dispatch(final: byte, params: seq<u32>, privateMode: byte)

  /**
   * The final-letter step: the command receives as many parameters as were
   * opened, in slot order, and the scanner comes to rest in normal text.
   */
  function FinalLetter(s: ScanState, ch: byte): (r: (ScanState, Action))
    requires s.size <= |s.params|
    ensures r.1.Dispatch? && r.1.final == ch && r.1.privateMode == s.privateMode
    ensures Wellformed(s) ==> Wellformed(r.0) && r.0.next == NormalText && |r.1.params| <= MAX_PARAMS
    ensures |r.1.params| == s.size && r.1.params <= s.params
  {
    (s.(size := 0, next := NormalText), Dispatch(ch, s.params[..s.size], s.privateMode))
  }

  function Advance(s: ScanState, ch: byte): (r: (ScanState, Action))
    requires Wellformed(s)
    ensures Wellformed(r.0)
    ensures r.1.Dispatch? ==> r.0.next == NormalText && r.0.size == 0 && |r.1.params| <= MAX_PARAMS
  {
    match s.next
    case NormalText =>
      if ch == ESC then (s.(next := WaitSquareBracket), Nothing) else (s, Plot(ch))
    case WaitSquareBracket =>
      if ch == '[' as int then
        (s.(params := s.params[0 := 1], privateMode := 0, next := SelectEscape), Nothing)
      else if ch == '#' as int then (s.(next := Double), Nothing)
      else if ch == ESC then (s.(next := NormalText), Plot(ESC))
      else if ch == 'c' as int then (s.(next := NormalText), Reset)
      else (s.(next := NormalText), Nothing)
    case SelectEscape =>
      if IsDigit(ch) then
        (s.(size := 1, params := s.params[0 := DigitValue(ch)], next := ReadDigit), Nothing)
      else if ch == '?' as int || ch == '#' as int then
        (s.(privateMode := ch, size := 1, params := s.params[0 := 0], next := ReadDigit), Nothing)
      else FinalLetter(s, ch)
    case ReadDigit =>
      if IsDigit(ch) then
        var i := s.size - 1;
        (s.(params := s.params[i := (s.params[i] * 10 + DigitValue(ch)) % U32_MODULUS]), Nothing)
      else if ch == ';' as int then
        if s.size < MAX_PARAMS then (s.(size := s.size + 1, params := s.params[s.size := 0]), Nothing)
        else (s, Nothing)
      else FinalLetter(s, ch)
    case Double =>
      (s.(next := NormalText), Nothing)
  }

  /** The scanner run over a sequence of bytes, with the action of each. */
  function ScanAll(s: ScanState, bytes: seq<byte>): (r: (ScanState, seq<Action>))
    requires Wellformed(s)
    ensures Wellformed(r.0) && |r.1| == |bytes|
    decreases |bytes|
  {
    if bytes == [] then (s, [])
    else
      var (t, a) := Advance(s, bytes[0]);
      var (u, acts) := ScanAll(t, bytes[1..]);
      (u, [a] + acts)
  }

  /** Every completed sequence leaves the scanner in normal text with no parameters. */
  lemma DispatchEndsInNormalText(s: ScanState, ch: byte)
    requires Wellformed(s) && Advance(s, ch).1.Dispatch?
    ensures Advance(s, ch).0 == s.(size := 0, next := NormalText)
    ensures Advance(s, ch).1 == Dispatch(ch, s.params[..s.size], s.privateMode)
  {
  }

  /** After ESC only `[` and `#` keep a sequence open; every other byte returns to normal text. */
  lemma WaitSquareBracketExits(s: ScanState, ch: byte)
    requires Wellformed(s) && s.next == WaitSquareBracket
    ensures Advance(s, ch).0.next ==
      if ch == '[' as int then SelectEscape else if ch == '#' as int then Double else NormalText
    ensures Advance(s, ch).1 ==
      if ch == ESC then Plot(ESC) else if ch == 'c' as int then Reset else Nothing
  {
  }

  /** The line-attribute state swallows exactly one byte. */
  lemma DoubleConsumesOne(s: ScanState, ch: byte)
    requires Wellformed(s) && s.next == Double
    ensures Advance(s, ch) == (s.(next := NormalText), Nothing)
  {
  }

  /** After `ESC [` a digit opens the first parameter with its value; `?` or `#` opens it at 0. */
  lemma SelectEscapeStarts(s: ScanState, ch: byte)
    requires Wellformed(s) && s.next == SelectEscape
    ensures IsDigit(ch) ==> var t := Advance(s, ch).0;
      t.next == ReadDigit && t.size == 1 && t.params[0] == DigitValue(ch) && t.privateMode == s.privateMode
    ensures ch == '?' as int || ch == '#' as int ==> var t := Advance(s, ch).0;
      t.next == ReadDigit && t.size == 1 && t.params[0] == 0 && t.privateMode == ch
    ensures !IsDigit(ch) && ch != '?' as int && ch != '#' as int ==>
      Advance(s, ch).1 == Dispatch(ch, [], s.privateMode)
  {
  }

  /**
   * While reading digits: a digit multiplies the open parameter by ten and
   * adds itself (modulo 2^32), touching no other slot; `;` opens a new slot
   * at zero while there is room.
   */
  lemma ReadDigitSteps(s: ScanState, ch: byte)
    requires Wellformed(s) && s.next == ReadDigit
    ensures IsDigit(ch) ==> var t := Advance(s, ch).0;
      && t.next == ReadDigit && t.size == s.size
      && t.params[s.size - 1] == (s.params[s.size - 1] * 10 + DigitValue(ch)) % U32_MODULUS
      && forall k | 0 <= k < MAX_PARAMS && k != s.size - 1 :: t.params[k] == s.params[k]
    ensures ch == ';' as int && s.size < MAX_PARAMS ==> var t := Advance(s, ch).0;
      && t.next == ReadDigit && t.size == s.size + 1 && t.params[s.size] == 0
      && t.params[..s.size] == s.params[..s.size]
    ensures !IsDigit(ch) && ch != ';' as int ==>
      Advance(s, ch).1 == Dispatch(ch, s.params[..s.size], s.privateMode)
  {
  }

  /** Scanning a concatenation is scanning one part after the other. */
  lemma {:induction false} ScanAllConcat(s: ScanState, xs: seq<byte>, ys: seq<byte>)
    requires Wellformed(s)
    ensures var (t, a) := ScanAll(s, xs);
      var (u, b) := ScanAll(t, ys);
      ScanAll(s, xs + ys) == (u, a + b)
    decreases |xs|
  {
    if xs == [] {
      assert xs + ys == ys;
      assert ScanAll(s, xs) == (s, []);
      assert [] + ScanAll(s, ys).1 == ScanAll(s, ys).1;
    } else {
      var (t0, a0) := Advance(s, xs[0]);
      ScanAllConcat(t0, xs[1..], ys);
      var (t, a) := ScanAll(t0, xs[1..]);
      var (u, b) := ScanAll(t, ys);
      assert ScanAll(s, xs) == (t, [a0] + a);
      assert (xs + ys)[0] == xs[0];
      assert (xs + ys)[1..] == xs[1..] + ys;
      assert ScanAll(t0, xs[1..] + ys) == (u, a + b);
      assert ScanAll(s, xs + ys) == (u, [a0] + (a + b));
      assert [a0] + (a + b) == ([a0] + a) + b;
    }
  }

  /** The decimal reading of a digit string, accumulated as the scanner does, in 32 bits. */
  function Accumulate(v: u32, ds: seq<byte>): u32
    requires forall k | 0 <= k < |ds| :: IsDigit(ds[k])
    decreases |ds|
  {
    if ds == [] then v else Accumulate((v * 10 + DigitValue(ds[0])) % U32_MODULUS, ds[1..])
  }

  lemma {:induction false} AccumulateSnoc(v: u32, ds: seq<byte>, d: byte)
    requires forall k | 0 <= k < |ds| :: IsDigit(ds[k])
    requires IsDigit(d)
    ensures Accumulate(v, ds + [d]) == (Accumulate(v, ds) * 10 + DigitValue(d)) % U32_MODULUS
    decreases |ds|
  {
    if ds == [] {
      assert ds + [d] == [d];
    } else {
      assert (ds + [d])[1..] == ds[1..] + [d];
      AccumulateSnoc((v * 10 + DigitValue(ds[0])) % U32_MODULUS, ds[1..], d);
    }
  }

  /** The decimal representation of `n`, most significant digit first. */
  function Decimal(n: nat): (ds: seq<byte>)
    ensures |ds| >= 1 && forall k | 0 <= k < |ds| :: IsDigit(ds[k])
  {
    if n < 10 then ['0' as int + n] else Decimal(n / 10) + ['0' as int + n % 10]
  }

  /** Reading the decimal representation of a 32-bit value gives the value back. */
  lemma {:induction false} AccumulateDecimal(n: u32)
    ensures Accumulate(0, Decimal(n)) == n
  {
    if n < 10 {
    } else {
      AccumulateDecimal(n / 10);
      AccumulateSnoc(0, Decimal(n / 10), '0' as int + n % 10);
    }
  }

  /** Digits fed while reading a parameter only change the open slot. */
  lemma {:induction false} ScanDigits(s: ScanState, ds: seq<byte>)
    requires Wellformed(s) && s.next == ReadDigit
    requires forall k | 0 <= k < |ds| :: IsDigit(ds[k])
    ensures ScanAll(s, ds) ==
      (s.(params := s.params[s.size - 1 := Accumulate(s.params[s.size - 1], ds)]), seq(|ds|, _ => Nothing))
    decreases |ds|
  {
    if ds != [] {
      var i := s.size - 1;
      var t := s.(params := s.params[i := (s.params[i] * 10 + DigitValue(ds[0])) % U32_MODULUS]);
      assert Advance(s, ds[0]) == (t, Nothing);
      ScanDigits(t, ds[1..]);
      var u := t.(params := t.params[i := Accumulate(t.params[i], ds[1..])]);
      assert ScanAll(t, ds[1..]) == (u, seq(|ds| - 1, _ => Nothing));
      assert ScanAll(s, ds) == (u, [Nothing] + seq(|ds| - 1, _ => Nothing));
      assert u == s.(params := s.params[i := Accumulate(s.params[i], ds)]);
      assert [Nothing] + seq(|ds| - 1, _ => Nothing) == seq(|ds|, _ => Nothing);
    } else {
      assert s.params[s.size - 1 := Accumulate(s.params[s.size - 1], ds)] == s.params;
      assert seq(0, _ => Nothing) == [];
    }
  }

  /** A parameter list as it is written on the wire: decimal numbers separated by `;`. */
  function EncodeParams(ps: seq<u32>): (bytes: seq<byte>)
    requires |ps| >= 1
    decreases |ps|
  {
    if |ps| == 1 then Decimal(ps[0]) else Decimal(ps[0]) + [';' as int] + EncodeParams(ps[1..])
  }

  /**
   * Reading an encoded parameter list into a freshly opened slot: the
   * scanner ends up holding exactly those parameters after the ones it had,
   * still reading digits, and has done nothing visible.
   */
  lemma {:induction false} ScanParams(s: ScanState, ps: seq<u32>)
    requires Wellformed(s) && s.next == ReadDigit && s.params[s.size - 1] == 0
    requires 1 <= |ps| && s.size - 1 + |ps| <= MAX_PARAMS
    ensures var (t, acts) := ScanAll(s, EncodeParams(ps));
      && t.next == ReadDigit && t.size == s.size - 1 + |ps|
      && t.params[..t.size] == s.params[..s.size - 1] + ps
      && t.privateMode == s.privateMode
      && forall k | 0 <= k < |acts| :: acts[k] == Nothing
    decreases |ps|, 1
  {
    var ds := Decimal(ps[0]);
    ScanDigits(s, ds);
    AccumulateDecimal(ps[0]);
    var t := s.(params := s.params[s.size - 1 := ps[0]]);
    assert ScanAll(s, ds).0 == t;
    assert t.params[..t.size] == s.params[..s.size - 1] + [ps[0]];
    if |ps| > 1 {
      ScanMoreParams(s, ps);
    }
  }

  /** `ScanParams` for two or more parameters: the first, the separator, then the rest. */
  lemma {:induction false} ScanMoreParams(s: ScanState, ps: seq<u32>)
    requires Wellformed(s) && s.next == ReadDigit && s.params[s.size - 1] == 0
    requires 2 <= |ps| && s.size - 1 + |ps| <= MAX_PARAMS
    ensures var (t, acts) := ScanAll(s, EncodeParams(ps));
      && t.next == ReadDigit && t.size == s.size - 1 + |ps|
      && t.params[..t.size] == s.params[..s.size - 1] + ps
      && t.privateMode == s.privateMode
      && forall k | 0 <= k < |acts| :: acts[k] == Nothing
    decreases |ps|, 0
  {
    var ds := Decimal(ps[0]);
    ScanDigits(s, ds);
    AccumulateDecimal(ps[0]);
    var t := s.(params := s.params[s.size - 1 := ps[0]]);
    assert ScanAll(s, ds).0 == t;
    var rest := [';' as int] + EncodeParams(ps[1..]);
    assert EncodeParams(ps) == ds + rest;
    ScanAllConcat(s, ds, rest);
    var u := t.(size := t.size + 1, params := t.params[t.size := 0]);
    ScanSeparator(t, EncodeParams(ps[1..]));
    ScanParams(u, ps[1..]);
    assert u.params[..u.size - 1] == s.params[..s.size - 1] + [ps[0]];
    assert s.params[..s.size - 1] + [ps[0]] + ps[1..] == s.params[..s.size - 1] + ps;
  }

  /** A `;` while reading digits opens the next parameter slot at 0 and does nothing visible. */
  lemma ScanSeparator(t: ScanState, xs: seq<byte>)
    requires Wellformed(t) && t.next == ReadDigit && t.size < MAX_PARAMS
    ensures var u := t.(size := t.size + 1, params := t.params[t.size := 0]);
      && Wellformed(u) && u.next == ReadDigit && u.params[u.size - 1] == 0
      && ScanAll(t, [';' as int] + xs) == (ScanAll(u, xs).0, [Nothing] + ScanAll(u, xs).1)
  {
    ScanAllCons(t, ';' as int, xs);
  }

  lemma ScanAllCons(s: ScanState, b: byte, bs: seq<byte>)
    requires Wellformed(s)
    ensures var (t, a) := Advance(s, b);
      ScanAll(s, [b] + bs) == (ScanAll(t, bs).0, [a] + ScanAll(t, bs).1)
  {
    assert ([b] + bs)[0] == b;
    assert ([b] + bs)[1..] == bs;
  }

  /** The action of the last byte of a scanned sequence. */
  lemma ScanAllSnoc(s: ScanState, xs: seq<byte>, b: byte)
    requires Wellformed(s)
    ensures var (t, acts) := ScanAll(s, xs);
      ScanAll(s, xs + [b]) == (Advance(t, b).0, acts + [Advance(t, b).1])
  {
    ScanAllConcat(s, xs, [b]);
    var t := ScanAll(s, xs).0;
    ScanAllCons(t, b, []);
    assert [b] + [] == [b];
    var (t', a) := Advance(t, b);
    assert ScanAll(t', []) == (t', []);
    assert [a] + [] == [a];
  }

  lemma EncodeParamsStartsWithDigit(ps: seq<u32>)
    requires |ps| >= 1
    ensures |EncodeParams(ps)| >= 1 && IsDigit(EncodeParams(ps)[0])
  {
    var ds := Decimal(ps[0]);
    if |ps| > 1 {
      assert EncodeParams(ps) == ds + ([';' as int] + EncodeParams(ps[1..]));
      assert EncodeParams(ps)[0] == ds[0];
    }
  }

  /** After `ESC [`, a leading digit opens slot 0 as if it were read into a zero slot. */
  lemma FirstDigit(s: ScanState, body: seq<byte>)
    requires Wellformed(s) && s.next == SelectEscape
    requires |body| >= 1 && IsDigit(body[0])
    ensures ScanAll(s, body) == ScanAll(s.(next := ReadDigit, size := 1, params := s.params[0 := 0]), body)
  {
    var b0 := body[0];
    var s' := s.(next := ReadDigit, size := 1, params := s.params[0 := 0]);
    var d := DigitValue(b0);
    var t := s.(size := 1, params := s.params[0 := d], next := ReadDigit);
    assert Advance(s, b0) == (t, Nothing);
    assert s'.params[0 := (0 * 10 + d) % U32_MODULUS] == s.params[0 := d];
    assert Advance(s', b0) == (t, Nothing);
    assert body == [b0] + body[1..];
    ScanAllCons(s, b0, body[1..]);
    ScanAllCons(s', b0, body[1..]);
  }

  /** From `ESC [`: the encoded parameters and a final byte are dispatched as written. */
  lemma ScanFromSelectEscape(s: ScanState, ps: seq<u32>, final: byte)
    requires Wellformed(s) && s.next == SelectEscape
    requires 1 <= |ps| <= MAX_PARAMS
    requires !IsDigit(final) && final != ';' as int
    ensures var (t, acts) := ScanAll(s, EncodeParams(ps) + [final]);
      t.next == NormalText && t.size == 0 && acts[|acts| - 1] == Dispatch(final, ps, s.privateMode)
  {
    var body := EncodeParams(ps);
    EncodeParamsStartsWithDigit(ps);
    var s' := s.(next := ReadDigit, size := 1, params := s.params[0 := 0]);
    FirstDigit(s, body);
    ScanParams(s', ps);
    ScanAllSnoc(s, body, final);
    var u := ScanAll(s, body).0;
    assert u.next == ReadDigit && u.params[..u.size] == ps;
    assert u.privateMode == s.privateMode;
  }

  /**
   * A control sequence `ESC [ p1 ; ... ; pn F` is handed to the terminal
   * with exactly the parameters written, whatever state the scanner was
   * left in by the bytes before it in normal text.
   */
  lemma ControlSequenceRoundTrip(s: ScanState, ps: seq<u32>, final: byte)
    requires Wellformed(s) && s.next == NormalText
    requires 1 <= |ps| <= MAX_PARAMS
    requires !IsDigit(final) && final != ';' as int
    ensures var (t, acts) := ScanAll(s, [ESC, '[' as int] + EncodeParams(ps) + [final]);
      t.next == NormalText && t.size == 0 && acts[|acts| - 1] == Dispatch(final, ps, 0)
  {
    var rest := EncodeParams(ps) + [final];
    var s1 := Advance(s, ESC).0;
    var s2 := Advance(s1, '[' as int).0;
    assert s2.next == SelectEscape && s2.privateMode == 0;
    ScanFromSelectEscape(s2, ps, final);
    ScanAllCons(s1, '[' as int, rest);
    ScanAllCons(s, ESC, ['[' as int] + rest);
    assert [ESC, '[' as int] + EncodeParams(ps) + [final] == [ESC] + (['[' as int] + rest);
  }

  /** `ESC [ ? p1 ; ... ; pn F`: the same, with `?` recorded as the private-mode marker. */
  lemma PrivateSequenceRoundTrip(s: ScanState, ps: seq<u32>, final: byte)
    requires Wellformed(s) && s.next == NormalText
    requires 1 <= |ps| <= MAX_PARAMS
    requires !IsDigit(final) && final != ';' as int
    ensures var (t, acts) := ScanAll(s, [ESC, '[' as int, '?' as int] + EncodeParams(ps) + [final]);
      t.next == NormalText && t.size == 0 && acts[|acts| - 1] == Dispatch(final, ps, '?' as int)
  {
    var body := EncodeParams(ps);
    var rest := body + [final];
    var s3 := Advance(Advance(Advance(s, ESC).0, '[' as int).0, '?' as int).0;
    ScanPrivateOpening(s, rest);
    ScanFinalAfterParams(s3, ps, final);
    assert [ESC, '[' as int, '?' as int] + body + [final] == [ESC, '[' as int, '?' as int] + rest;
  }

  /** `ESC [ ?` opens the first parameter slot with the private-mode marker, and the bytes after it are scanned from there. */
  lemma ScanPrivateOpening(s: ScanState, xs: seq<byte>)
    requires Wellformed(s) && s.next == NormalText
    ensures var s3 := Advance(Advance(Advance(s, ESC).0, '[' as int).0, '?' as int).0;
      var (t, acts) := ScanAll(s, [ESC, '[' as int, '?' as int] + xs);
      && Wellformed(s3) && s3.next == ReadDigit && s3.size == 1 && s3.params[0] == 0 && s3.privateMode == '?' as int
      && t == ScanAll(s3, xs).0 && |acts| == 3 + |xs| && acts[3..] == ScanAll(s3, xs).1
  {
    var s1 := Advance(s, ESC).0;
    var s2 := Advance(s1, '[' as int).0;
    var r2: seq<byte> := ['?' as int] + xs;
    var r1: seq<byte> := ['[' as int] + r2;
    ScanAllCons(s2, '?' as int, xs);
    ScanAllCons(s1, '[' as int, r2);
    ScanAllCons(s, ESC, r1);
    assert [ESC, '[' as int, '?' as int] + xs == [ESC] + r1;
  }

  /** An encoded parameter list read into the first slot, then a final letter: the list is dispatched. */
  lemma ScanFinalAfterParams(s: ScanState, ps: seq<u32>, final: byte)
    requires Wellformed(s) && s.next == ReadDigit && s.size == 1 && s.params[0] == 0
    requires 1 <= |ps| <= MAX_PARAMS
    requires !IsDigit(final) && final != ';' as int
    ensures var (t, acts) := ScanAll(s, EncodeParams(ps) + [final]);
      t.next == NormalText && t.size == 0 && acts[|acts| - 1] == Dispatch(final, ps, s.privateMode)
  {
    var body := EncodeParams(ps);
    ScanParams(s, ps);
    ScanAllSnoc(s, body, final);
    var u := ScanAll(s, body).0;
    assert u.next == ReadDigit && u.params[..u.size] == ps;
  }

  /** The scanner after `ESC [` and an encoded parameter list: still reading digits, holding those parameters. */
  lemma OpenSequence(s: ScanState, ps: seq<u32>)
    requires Wellformed(s) && s.next == NormalText
    requires 1 <= |ps| <= MAX_PARAMS
    ensures var t := ScanAll(s, [ESC, '[' as int] + EncodeParams(ps)).0;
      t.next == ReadDigit && t.size == |ps| && t.params[..t.size] == ps
  {
    var xs := EncodeParams(ps);
    var s1 := Advance(s, ESC).0;
    var s2 := Advance(s1, '[' as int).0;
    var s' := s2.(next := ReadDigit, size := 1, params := s2.params[0 := 0]);
    EncodeParamsStartsWithDigit(ps);
    FirstDigit(s2, xs);
    ScanParams(s', ps);
    ScanAllCons(s1, '[' as int, xs);
    ScanAllCons(s, ESC, ['[' as int] + xs);
    assert [ESC, '[' as int] + xs == [ESC] + (['[' as int] + xs);
    assert ScanAll(s, [ESC, '[' as int] + xs).0 == ScanAll(s1, ['[' as int] + xs).0;
    assert ScanAll(s1, ['[' as int] + xs).0 == ScanAll(s', xs).0;
  }

  /**
   * The `;` step as the source writes it: the count goes up by one and the
   * slot at the new count minus one is zeroed, with no check against the
   * capacity. The result is the new count and the index of the slot written.
   */
  function SemicolonAsWritten(s: ScanState): (r: (nat, nat))
    ensures r.0 == r.1 + 1
    ensures r.1 == s.size
  {
    (s.size + 1, s.size)
  }

  /**
   * Ten parameters fill the array; an eleventh `;` as written then zeroes
   * slot 10, one past the end of the ten-slot array. `Advance` instead
   * ignores it and keeps the scanner as it was.
   */
  lemma SemicolonOverflow(s: ScanState)
    requires Wellformed(s) && s.next == NormalText
    ensures var t := ScanAll(s, [ESC, '[' as int] + EncodeParams(seq(MAX_PARAMS, _ => 0))).0;
      && t.next == ReadDigit && t.size == MAX_PARAMS
      && SemicolonAsWritten(t).1 == MAX_PARAMS == |t.params|
      && Advance(t, ';' as int) == (t, Nothing)
  {
    OpenSequence(s, seq(MAX_PARAMS, _ => 0));
  }
}
