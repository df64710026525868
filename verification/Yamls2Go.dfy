/**
 The generator that turns a YAML text into a Go string constant. A raw string
 literal cannot hold a backtick, so every pair of backticks is moved, with the
 text between them, into an interpreted literal of its own. The meaning of the
 result is given by an evaluator for sums of Go string literals (section "String
 literals" of the Go Programming Language Specification).
 */
module Yamls2Go {
  import opened Wrappers

  // ---------- The generator ----------

  // The position of the first backtick, or the length if there is none
  function FirstTick(t: string): (n: nat)
    ensures n <= |t|
    ensures n < |t| ==> t[n] == '`'
    ensures forall i | 0 <= i < n :: t[i] != '`'
  {
    if t == "" || t[0] == '`' then 0 else 1 + FirstTick(t[1..])
  }

  const OPENER: string := "` + \"`"
  const CLOSER: string := "`\" + `"

  // Replaces every pair of backticks, from left to right; a single backtick that
  // is left over stays as it is.
  function Encode(t: string): string
  {
    var i := FirstTick(t);
    if i == |t| then t
    else
      var rest := t[i + 1..];
      var j := FirstTick(rest);
      if j == |rest| then t
      else t[..i] + OPENER + rest[..j] + CLOSER + Encode(rest[j + 1..])
  }

  // The right-hand side of the generated constant
  function Constant(t: string): string
  {
    "`" + Encode(t) + "`"
  }

  // ---------- The value of a sum of string literals ----------

  // Operand: a literal must come. Raw, Interpreted: inside a literal. Escape: after
  // a backslash. Digits: inside a numeric escape, with the digits read and missing.
  // After: a literal has ended.
  datatype Mode =
    | Operand
    | Raw
    | Interpreted
    | Escape
    | Digits(base: nat, read: nat, missing: nat, code: nat)
    | After

  datatype State = Stuck | State(mode: Mode, value: string)

  function ByteAt(n: nat): char
  {
    (n % 256) as char
  }

  // The bytes that encode a code point
  function Utf8(code: nat): (bytes: string)
    ensures 1 <= |bytes| <= 4
  {
    if code < 0x80 then [ByteAt(code)]
    else if code < 0x800 then [ByteAt(0xC0 + code / 64), ByteAt(0x80 + code % 64)]
    else if code < 0x1_0000 then
      [ByteAt(0xE0 + code / 4096), ByteAt(0x80 + code / 64 % 64), ByteAt(0x80 + code % 64)]
    else
      [ByteAt(0xF0 + code / 262144), ByteAt(0x80 + code / 4096 % 64), ByteAt(0x80 + code / 64 % 64), ByteAt(0x80 + code % 64)]
  }

  function Digit(c: char): Option<nat>
  {
    if '0' <= c <= '9' then Some(c as nat - '0' as nat)
    else if 'a' <= c <= 'f' then Some(c as nat - 'a' as nat + 10)
    else if 'A' <= c <= 'F' then Some(c as nat - 'A' as nat + 10)
    else None
  }

  // What follows a backslash in an interpreted literal: one letter for one
  // character, or the start of an octal, byte or code point number
  function AfterBackslash(c: char): State
  {
    match c
    case 'a' => State(Interpreted, [ByteAt(7)])
    case 'b' => State(Interpreted, [ByteAt(8)])
    case 'f' => State(Interpreted, [ByteAt(12)])
    case 'n' => State(Interpreted, "\n")
    case 'r' => State(Interpreted, "\r")
    case 't' => State(Interpreted, "\t")
    case 'v' => State(Interpreted, [ByteAt(11)])
    case '\\' => State(Interpreted, "\\")
    case '"' => State(Interpreted, "\"")
    case 'x' => State(Digits(16, 0, 2, 0), "")
    case 'u' => State(Digits(16, 0, 4, 0), "")
    case 'U' => State(Digits(16, 0, 8, 0), "")
    case _ => if '0' <= c <= '7' then State(Digits(8, 1, 2, c as nat - '0' as nat), "") else Stuck
  }

  // A number of four or eight digits is a code point, one of two or three a byte.
  function NumberValue(digits: nat, code: nat): Option<string>
  {
    if digits >= 4 then
      if code > 0x10_FFFF || 0xD800 <= code < 0xE000 then None else Some(Utf8(code))
    else
      if code > 255 then None else Some([ByteAt(code)])
  }

  // Reading one character gives the next mode and what it adds to the value. A
  // newline after a literal ends the declaration, so it cannot come before "+".
  function Step(mode: Mode, c: char): State
  {
    match mode
    case Operand =>
      if c == '`' then State(Raw, "")
      else if c == '"' then State(Interpreted, "")
      else if c in {' ', '\t', '\r', '\n'} then State(Operand, "")
      else Stuck
    case Raw =>
      if c == '`' then State(After, "")
      else if c == '\r' then State(Raw, "")
      else State(Raw, [c])
    case Interpreted =>
      if c == '"' then State(After, "")
      else if c == '\\' then State(Escape, "")
      else if c == '\n' then Stuck
      else State(Interpreted, [c])
    case Escape => AfterBackslash(c)
    case Digits(base, read, missing, code) =>
      var d := Digit(c);
      if d.None? || d.value >= base || missing == 0 then Stuck
      else if missing > 1 then State(Digits(base, read + 1, missing - 1, code * base + d.value), "")
      else
        (match NumberValue(read + 1, code * base + d.value)
         case None => Stuck
         case Some(bytes) => State(Interpreted, bytes))
    case After =>
      if c == '+' then State(Operand, "")
      else if c in {' ', '\t', '\r'} then State(After, "")
      else Stuck
  }

  function Prefixed(out: string, s: State): State
  {
    match s
    case Stuck => Stuck
    case State(mode, value) => State(mode, out + value)
  }

  function Eval(mode: Mode, src: string): State
    decreases |src|
  {
    if src == "" then State(mode, "")
    else
      match Step(mode, src[0])
      case Stuck => Stuck
      case State(next, out) => Prefixed(out, Eval(next, src[1..]))
  }

  // The value of a source text, if it is a sum of string literals
  function GoValue(src: string): Option<string>
  {
    match Eval(Operand, src)
    case State(After, value) => Some(value)
    case _ => None
  }

  // ---------- When the value is the text ----------

  // No character of the text between two backticks needs an escape.
  predicate Plain(b: string)
  {
    forall i | 0 <= i < |b| :: b[i] != '"' && b[i] != '\\' && b[i] != '\n'
  }

  // Backticks come in pairs with plain text between them, and there is no
  // carriage return outside the pairs.
  predicate Preservable(t: string)
  {
    var i := FirstTick(t);
    '\r' !in t[..i]
    && (i < |t| ==>
          var rest := t[i + 1..];
          var j := FirstTick(rest);
          j < |rest| && Plain(rest[..j]) && Preservable(rest[j + 1..]))
  }

  // ---------- Evaluation of parts ----------

  function Append(s: State, src: string): State
  {
    match s
    case Stuck => Stuck
    case State(mode, value) => Prefixed(value, Eval(mode, src))
  }

  lemma PrefixedAppend(out: string, s: State, src: string)
    ensures Append(Prefixed(out, s), src) == Prefixed(out, Append(s, src))
  {
    match s
    case Stuck =>
    case State(mode, value) =>
      var e := Eval(mode, src);
      assert e.State? ==> (out + value) + e.value == out + (value + e.value);
  }

  lemma {:induction false} EvalConcat(mode: Mode, a: string, b: string)
    ensures Eval(mode, a + b) == Append(Eval(mode, a), b)
    decreases |a|
  {
    if a == "" {
      assert a + b == b;
      NothingBefore(Eval(mode, b));
    } else {
      assert (a + b)[1..] == a[1..] + b;
      var next := Step(mode, a[0]);
      if next.State? {
        EvalConcat(next.mode, a[1..], b);
        PrefixedAppend(next.value, Eval(next.mode, a[1..]), b);
      }
    }
  }

  lemma NothingBefore(s: State)
    ensures Prefixed("", s) == s
  {
    assert s.State? ==> "" + s.value == s.value;
  }

  lemma EvalOne(mode: Mode, c: char)
    ensures Eval(mode, [c]) == Step(mode, c)
  {
    match Step(mode, c)
    case Stuck =>
    case State(next, out) => assert out + "" == out;
  }

  // What a raw literal keeps of its text
  function DropReturns(s: string): string
  {
    if s == "" then "" else (if s[0] == '\r' then "" else [s[0]]) + DropReturns(s[1..])
  }

  ghost predicate NoTick(s: string)
  {
    forall i | 0 <= i < |s| :: s[i] != '`'
  }

  lemma {:induction false} EvalRaw(s: string)
    requires NoTick(s)
    ensures Eval(Raw, s) == State(Raw, DropReturns(s)) && NoTick(DropReturns(s))
  {
    if s != "" {
      EvalRaw(s[1..]);
    }
  }

  lemma {:induction false} DropReturnsSame(s: string)
    ensures |DropReturns(s)| <= |s|
    ensures DropReturns(s) == s <==> '\r' !in s
  {
    if s != "" {
      DropReturnsSame(s[1..]);
      assert s == [s[0]] + s[1..];
      if s[0] != '\r' { assert DropReturns(s)[1..] == DropReturns(s[1..]); }
    }
  }

  lemma {:induction false} EvalPlain(b: string)
    requires Plain(b)
    ensures Eval(Interpreted, b) == State(Interpreted, b)
  {
    if b != "" {
      EvalPlain(b[1..]);
      assert b == [b[0]] + b[1..];
    }
  }

  function AppendOne(s: State, c: char): State
  {
    match s
    case Stuck => Stuck
    case State(mode, value) =>
      match Step(mode, c)
      case Stuck => Stuck
      case State(next, out) => State(next, value + out)
  }

  lemma AppendIsAppendOne(s: State, c: char)
    ensures Append(s, [c]) == AppendOne(s, c)
  {
    if s.State? { EvalOne(s.mode, c); }
  }

  lemma EvalSix(mode: Mode, a: char, b: char, c: char, d: char, e: char, f: char)
    ensures Eval(mode, [a] + [b] + [c] + [d] + [e] + [f])
            == AppendOne(AppendOne(AppendOne(AppendOne(AppendOne(Step(mode, a), b), c), d), e), f)
  {
    EvalOne(mode, a);
    EvalConcat(mode, [a], [b]);
    EvalConcat(mode, [a] + [b], [c]);
    EvalConcat(mode, [a] + [b] + [c], [d]);
    EvalConcat(mode, [a] + [b] + [c] + [d], [e]);
    EvalConcat(mode, [a] + [b] + [c] + [d] + [e], [f]);
    var s1 := Step(mode, a);
    AppendIsAppendOne(s1, b);
    var s2 := AppendOne(s1, b);
    AppendIsAppendOne(s2, c);
    var s3 := AppendOne(s2, c);
    AppendIsAppendOne(s3, d);
    var s4 := AppendOne(s3, d);
    AppendIsAppendOne(s4, e);
    AppendIsAppendOne(AppendOne(s4, e), f);
  }

  // What the opening delimiter does in each mode: it moves from a raw to an
  // interpreted literal; where a literal is expected it is a complete raw literal;
  // elsewhere it is an error.
  function AfterOpener(mode: Mode): State
  {
    match mode
    case Raw => State(Interpreted, "`")
    case Operand => State(After, " + \"")
    case _ => Stuck
  }

  // The closing delimiter is its mirror image.
  function AfterCloser(mode: Mode): State
  {
    match mode
    case Interpreted => State(Raw, "`")
    case Operand => State(After, "\" + ")
    case _ => Stuck
  }

  lemma EvalOpener(mode: Mode)
    ensures Eval(mode, OPENER) == AfterOpener(mode)
  {
    assert OPENER == ['`'] + [' '] + ['+'] + [' '] + ['"'] + ['`'];
    EvalSix(mode, '`', ' ', '+', ' ', '"', '`');
    SixOpener(mode);
  }

  lemma SixOpener(mode: Mode)
    ensures AppendOne(AppendOne(AppendOne(AppendOne(AppendOne(Step(mode, '`'), ' '), '+'), ' '), '"'), '`') == AfterOpener(mode)
  {
    var s1 := Step(mode, '`');
    var s2 := AppendOne(s1, ' ');
    assert s2 == if mode == Raw then State(After, "") else if mode == Operand then State(Raw, " ")
                 else if mode == Interpreted then State(Interpreted, "` ") else Stuck;
    var s3 := AppendOne(s2, '+');
    var s4 := AppendOne(s3, ' ');
    assert s4 == if mode == Raw then State(Operand, "") else if mode == Operand then State(Raw, " + ")
                 else if mode == Interpreted then State(Interpreted, "` + ") else Stuck;
    var s5 := AppendOne(s4, '"');
    assert s5 == if mode == Raw then State(Interpreted, "") else if mode == Operand then State(Raw, " + \"")
                 else if mode == Interpreted then State(After, "` + ") else Stuck;
  }

  lemma EvalCloser(mode: Mode)
    requires mode != Raw
    ensures Eval(mode, CLOSER) == AfterCloser(mode)
  {
    assert CLOSER == ['`'] + ['"'] + [' '] + ['+'] + [' '] + ['`'];
    EvalSix(mode, '`', '"', ' ', '+', ' ', '`');
    SixCloser(mode);
  }

  lemma SixCloser(mode: Mode)
    requires mode != Raw
    ensures AppendOne(AppendOne(AppendOne(AppendOne(AppendOne(Step(mode, '`'), '"'), ' '), '+'), ' '), '`') == AfterCloser(mode)
  {
    var s1 := Step(mode, '`');
    var s2 := AppendOne(s1, '"');
    assert s2 == if mode == Interpreted then State(After, "`") else if mode == Operand then State(Raw, "\"") else Stuck;
    var s3 := AppendOne(s2, ' ');
    var s4 := AppendOne(s3, '+');
    assert s4 == if mode == Interpreted then State(Operand, "`") else if mode == Operand then State(Raw, "\" +") else Stuck;
    var s5 := AppendOne(s4, ' ');
    assert s5 == if mode == Interpreted then State(Operand, "`") else if mode == Operand then State(Raw, "\" + ") else Stuck;
  }

  // ---------- Preservable texts keep their value ----------

  // The parts of a text with a pair of backticks
  datatype Parts = Parts(outside: string, inside: string, rest: string)

  predicate HasPair(t: string)
  {
    var i := FirstTick(t);
    i < |t| && FirstTick(t[i + 1..]) < |t[i + 1..]|
  }

  function Split(t: string): (p: Parts)
    requires HasPair(t)
    ensures |p.rest| < |t|
  {
    var i := FirstTick(t);
    var rest := t[i + 1..];
    var j := FirstTick(rest);
    Parts(t[..i], rest[..j], rest[j + 1..])
  }

  // A text is cut in two by its first backtick.
  lemma Cut(t: string, i: nat)
    requires i < |t| && t[i] == '`'
    ensures t == t[..i] + ("`" + t[i + 1..])
  {
    assert t[i..] == [t[i]] + t[i + 1..];
    assert t == t[..i] + t[i..];
  }

  lemma CutAtTick(t: string, i: nat)
    requires i == FirstTick(t) && i < |t|
    ensures NoTick(t[..i]) && t == t[..i] + ("`" + t[i + 1..])
  {
    Cut(t, i);
  }

  lemma SplitText(t: string)
    requires HasPair(t)
    ensures var p := Split(t);
            NoTick(p.outside) && NoTick(p.inside) && t == p.outside + ("`" + (p.inside + ("`" + p.rest)))
  {
    var i := FirstTick(t);
    var rest := t[i + 1..];
    var j := FirstTick(rest);
    CutAtTick(t, i);
    CutAtTick(rest, j);
    SplitIs(t, i, rest, j);
  }

  lemma SplitIs(t: string, i: nat, rest: string, j: nat)
    requires HasPair(t) && i == FirstTick(t) && rest == t[i + 1..] && j == FirstTick(rest)
    ensures Split(t) == Parts(t[..i], rest[..j], rest[j + 1..])
  {
  }

  lemma SplitEncode(t: string)
    requires HasPair(t)
    ensures var p := Split(t); Encode(t) == p.outside + OPENER + p.inside + CLOSER + Encode(p.rest)
  {
  }

  lemma SplitPreservable(t: string)
    requires HasPair(t)
    ensures var p := Split(t);
            Preservable(t) <==> '\r' !in p.outside && Plain(p.inside) && Preservable(p.rest)
  {
  }

  // The evaluation of an encoded text, part by part
  lemma EvalParts(mode: Mode, t: string)
    requires HasPair(t)
    ensures var p := Split(t);
            Eval(mode, Encode(t) + "`")
            == Append(Append(Append(Append(Eval(mode, p.outside), OPENER), p.inside), CLOSER), Encode(p.rest) + "`")
  {
    var p := Split(t);
    SplitEncode(t);
    var a := p.outside;
    var ab := a + OPENER;
    var abc := ab + p.inside;
    var abcd := abc + CLOSER;
    EvalConcat(mode, a, OPENER);
    EvalConcat(mode, ab, p.inside);
    EvalConcat(mode, abc, CLOSER);
    EvalConcat(mode, abcd, Encode(p.rest) + "`");
    assert Encode(t) + "`" == abcd + (Encode(p.rest) + "`");
  }

  lemma FiveParts(a: string, b: string, c: string)
    ensures a + ("`" + (b + ("`" + c))) == (((a + "`") + b) + "`") + c
  {
  }

  function Through(mode: Mode, p: Parts): State
  {
    Append(Append(Append(Eval(mode, p.outside), OPENER), p.inside), CLOSER)
  }

  // The text of a pair, with its backticks
  function ReadPair(p: Parts): string
  {
    ((p.outside + "`") + p.inside) + "`"
  }

  // A pair with plain text inside and no carriage return before it keeps its value.
  lemma RegularPair(p: Parts)
    requires NoTick(p.outside) && '\r' !in p.outside && Plain(p.inside)
    ensures Through(Raw, p) == State(Raw, ReadPair(p))
  {
    EvalRaw(p.outside);
    DropReturnsSame(p.outside);
    EvalOpener(Raw);
    EvalPlain(p.inside);
    EvalCloser(Interpreted);
  }

  lemma {:induction false} PreservableIsPreserved(t: string)
    requires Preservable(t)
    ensures Eval(Raw, Encode(t) + "`") == State(After, t)
    decreases |t|
  {
    if HasPair(t) {
      var p := Split(t);
      SplitText(t);
      SplitPreservable(t);
      EvalParts(Raw, t);
      RegularPair(p);
      PreservableIsPreserved(p.rest);
      FiveParts(p.outside, p.inside, p.rest);
    } else {
      assert t[..|t|] == t && Encode(t) == t;
      EvalRaw(t);
      DropReturnsSame(t);
      EvalConcat(Raw, t, "`");
      EvalOne(Raw, '`');
      assert t + "" == t;
    }
  }

  // ---------- Only preservable texts keep their value ----------

  // How many characters of an unfinished escape have been read
  function Owed(mode: Mode): nat
  {
    match mode
    case Escape => 1
    case Digits(base, read, _, _) => read + if base == 8 then 1 else 2
    case _ => 0
  }

  // The numeric escapes that can come up
  predicate Proper(mode: Mode)
  {
    match mode
    case Digits(base, read, missing, _) =>
      missing > 0 && if base == 8 then read + missing == 3 else read + missing in {2, 4, 8}
    case _ => true
  }

  // Without a backtick, a character of source adds at most one character to the
  // value, counting those owed by an escape, and an escape does not give back all
  // that it owes.
  lemma StepNoTick(mode: Mode, c: char)
    requires c != '`' && Proper(mode) && Step(mode, c).State?
    ensures var s := Step(mode, c);
            && Proper(s.mode) && (s.mode == Raw <==> mode == Raw)
            && |s.value| + Owed(s.mode) <= 1 + Owed(mode)
            && (Owed(mode) > 0 && Owed(s.mode) == 0 ==> |s.value| <= Owed(mode))
            && (mode == Interpreted && (c == '"' || c == '\\' || c == '\n') ==> |s.value| == 0 && s.mode in {After, Escape})
            && (mode == Interpreted && !(c == '"' || c == '\\' || c == '\n') ==> s == State(Interpreted, [c]))
            && (mode == Raw ==> s.value == if c == '\r' then "" else [c])
  {
  }

  // Source without backticks stays inside or outside a raw literal, and adds no
  // more to the value than it has, and less when it is not plain.
  lemma {:induction false} EvalNoTick(mode: Mode, s: string)
    requires NoTick(s) && Proper(mode) && Eval(mode, s).State?
    ensures var e := Eval(mode, s);
            && Proper(e.mode) && (e.mode == Raw <==> mode == Raw)
            && |e.value| + Owed(e.mode) <= |s| + Owed(mode)
            && (Owed(mode) > 0 && Owed(e.mode) == 0 ==> |e.value| < |s| + Owed(mode))
            && (mode == Interpreted && Owed(e.mode) == 0 && |e.value| == |s| ==> Plain(s))
    decreases |s|
  {
    if s != "" {
      StepNoTick(mode, s[0]);
      EvalNoTick(Step(mode, s[0]).mode, s[1..]);
      assert s == [s[0]] + s[1..];
    }
  }

  // A delimiter cannot make up for a value that is behind: up to four characters
  // are added, none of them a backtick unless there is only one, and the text has
  // a backtick at position k.
  lemma DelimiterStaysBehind(text: string, k: nat, value: string, added: string)
    requires k < |text| && text[k] == '`' && |value| < k
    requires added == "`" || added == " + \"" || added == "\" + "
    requires value + added <= text
    ensures |value + added| < k + 1
  {
    assert forall i | 0 <= i < |added| :: (value + added)[|value| + i] == added[i];
    assert forall i | 0 <= i < |value + added| :: (value + added)[i] == text[i];
  }

  // ---------- One pair ----------

  // What the evaluation of a pair adds to the value, piece by piece
  datatype Pieces = Pieces(outside: string, opening: string, inside: string, closing: string)

  function Glue(q: Pieces): string
  {
    ((q.outside + q.opening) + q.inside) + q.closing
  }

  predicate IsDelimiterValue(added: string)
  {
    added == "`" || added == " + \"" || added == "\" + "
  }

  lemma ThroughPieces(mode: Mode, p: Parts) returns (q: Pieces)
    requires NoTick(p.outside) && NoTick(p.inside) && Owed(mode) == 0 && Through(mode, p).State?
    ensures var s := Through(mode, p);
            && Owed(s.mode) == 0 && s.value == Glue(q)
            && |q.outside| <= |p.outside| && IsDelimiterValue(q.opening)
            && |q.inside| <= |p.inside| && IsDelimiterValue(q.closing)
    ensures mode == Raw ==>
              && q.outside == DropReturns(p.outside) && q.opening == "`"
              && (|q.inside| == |p.inside| ==> Plain(p.inside))
  {
    var s0 := Eval(mode, p.outside);
    EvalNoTick(mode, p.outside);
    EvalOpener(s0.mode);
    var s1 := Append(s0, OPENER);
    EvalNoTick(s1.mode, p.inside);
    var s2 := Append(s1, p.inside);
    EvalCloser(s2.mode);
    q := Pieces(s0.value, AfterOpener(s0.mode).value, Eval(s1.mode, p.inside).value, AfterCloser(s2.mode).value);
    if mode == Raw { EvalRaw(p.outside); }
  }

  // If the value is behind before the inside of a pair or before its end, it is
  // behind after the pair.
  lemma PairStaysBehind(text: string, read: string, value: string, p: Parts, q: Pieces)
    requires text == read + (ReadPair(p) + p.rest) && value + Glue(q) <= text
    requires |q.outside| <= |p.outside| && IsDelimiterValue(q.opening)
    requires |q.inside| <= |p.inside| && IsDelimiterValue(q.closing)
    requires |value| <= |read|
    requires |value| < |read| || |q.outside| < |p.outside| || (q.opening == "`" && |q.inside| < |p.inside|)
    ensures |value + Glue(q)| < |read + ReadPair(p)|
  {
    var k := |read| + |p.outside|;
    var w1 := value + q.outside;
    var w2 := w1 + q.opening;
    var w3 := w2 + q.inside;
    assert text[k] == '`';
    assert value + Glue(q) == w3 + q.closing;
    assert w3 <= text && w2 <= text && w1 <= text;
    if |w1| < k { DelimiterStaysBehind(text, k, w1, q.opening); }
    assert |w2| < k + 1 || (|w2| == k + 1 && |q.inside| < |p.inside|);
    var m := k + 1 + |p.inside|;
    assert text[m] == '`';
    DelimiterStaysBehind(text, m, w3, q.closing);
  }

  // ---------- The rest of the text ----------

  // With a backtick left over, the constant can end well only if it did not start
  // inside a raw literal.
  lemma LeftOver(mode: Mode, x: string, y: string)
    requires NoTick(x) && NoTick(y) && Owed(mode) == 0
    ensures var e := Eval(mode, x + ("`" + y) + "`");
            e.State? && e.mode == After ==> mode != Raw && |e.value| <= |x| + 1 + |y|
  {
    assert x + ("`" + y) + "`" == ((x + "`") + y) + "`";
    EvalConcat(mode, x, "`");
    EvalConcat(mode, x + "`", y);
    EvalConcat(mode, x + "`" + y, "`");
    if Eval(mode, x).State? {
      EvalNoTick(mode, x);
      AfterLeftOver(Eval(mode, x), y);
    }
  }

  lemma AfterLeftOver(s: State, y: string)
    requires s.State? && Proper(s.mode) && NoTick(y)
    ensures var e := Append(Append(Append(s, "`"), y), "`");
            e.State? && e.mode == After ==> s.mode != Raw && |e.value| <= |s.value| + 1 + |y|
  {
    AppendIsAppendOne(s, '`');
    var s1 := Append(s, "`");
    if s1.State? && Eval(s1.mode, y).State? {
      EvalNoTick(s1.mode, y);
      var s2 := Append(s1, y);
      AppendIsAppendOne(s2, '`');
    }
  }

  lemma EncodeWithoutPair(t: string)
    requires !HasPair(t)
    ensures Encode(t) == t
  {
  }

  // Without a pair there is no backtick, or one.
  lemma NoPair(t: string, i: nat)
    requires i == FirstTick(t) && i < |t| && FirstTick(t[i + 1..]) == |t[i + 1..]|
    ensures NoTick(t[..i]) && NoTick(t[i + 1..]) && t == t[..i] + ("`" + t[i + 1..])
  {
    CutAtTick(t, i);
    NoFurtherTick(t[i + 1..]);
  }

  lemma NoFurtherTick(y: string)
    requires FirstTick(y) == |y|
    ensures NoTick(y)
  {
  }

  lemma LastRawPart(mode: Mode, t: string)
    requires NoTick(t) && Owed(mode) == 0
    ensures var e := Eval(mode, t + "`");
            e.State? && e.mode == After ==> |e.value| <= |t| && (mode == Raw ==> e.value == DropReturns(t))
  {
    EvalConcat(mode, t, "`");
    if Eval(mode, t).State? {
      EvalNoTick(mode, t);
      AppendIsAppendOne(Eval(mode, t), '`');
      if mode == Raw { EvalRaw(t); }
    }
  }

  // The last part of a text cannot make up for a value that is behind, either.
  lemma LastPart(mode: Mode, t: string)
    requires !HasPair(t) && Owed(mode) == 0
    ensures var e := Eval(mode, Encode(t) + "`");
            e.State? && e.mode == After ==>
              && |e.value| <= |t|
              && (mode == Raw ==> NoTick(t) && e.value == DropReturns(t))
  {
    var i := FirstTick(t);
    EncodeWithoutPair(t);
    if i < |t| {
      NoPair(t, i);
      LeftOver(mode, t[..i], t[i + 1..]);
    } else {
      NoFurtherTick(t);
      LastRawPart(mode, t);
    }
  }

  lemma BehindAfterPair(text: string, read: string, value: string, mode: Mode, p: Parts)
    requires NoTick(p.outside) && NoTick(p.inside) && Owed(mode) == 0 && Through(mode, p).State?
    requires text == read + (ReadPair(p) + p.rest) && |value| < |read|
    requires value + Through(mode, p).value <= text
    ensures Owed(Through(mode, p).mode) == 0
    ensures |value + Through(mode, p).value| < |read + ReadPair(p)|
  {
    var q := ThroughPieces(mode, p);
    PairStaysBehind(text, read, value, p, q);
  }

  lemma Reassociate(a: string, b: string, c: string)
    ensures a + (b + c) == (a + b) + c && a + b <= a + (b + c)
  {
  }

  // The evaluation of the rest after a pair
  lemma AfterPair(mode: Mode, t: string, p: Parts)
    requires HasPair(t) && p == Split(t)
    ensures var e, s := Eval(mode, Encode(t) + "`"), Through(mode, p);
            e.State? ==>
              && s.State?
              && var tail := Eval(s.mode, Encode(p.rest) + "`");
                 tail.State? && e.mode == tail.mode && e.value == s.value + tail.value
  {
    EvalParts(mode, t);
  }

  // Once the value is behind the part of the text that has been read, it never
  // catches up: no way of reading on makes the value equal to the text.
  lemma {:induction false} NeverCatchesUp(text: string, read: string, value: string, mode: Mode, t: string)
    requires text == read + t && |value| < |read| && Owed(mode) == 0
    requires Eval(mode, Encode(t) + "`").State? && Eval(mode, Encode(t) + "`").mode == After
    ensures value + Eval(mode, Encode(t) + "`").value != text
    decreases |t|
  {
    if HasPair(t) {
      var p := Split(t);
      SplitText(t);
      FiveParts(p.outside, p.inside, p.rest);
      AfterPair(mode, t, p);
      var s := Through(mode, p);
      Reassociate(value, s.value, Eval(s.mode, Encode(p.rest) + "`").value);
      Reassociate(read, ReadPair(p), p.rest);
      if value + s.value <= text {
        BehindAfterPair(text, read, value, mode, p);
        NeverCatchesUp(text, read + ReadPair(p), value + s.value, s.mode, p.rest);
      }
    } else {
      LastPart(mode, t);
    }
  }

  // A text whose first pair falls behind is not preserved.
  lemma PairFallsBehind(t: string, p: Parts, q: Pieces)
    requires t == ReadPair(p) + p.rest && NoTick(p.outside) && NoTick(p.inside)
    requires Through(Raw, p).State? && Owed(Through(Raw, p).mode) == 0
    requires Through(Raw, p).value == Glue(q) && Glue(q) <= t
    requires |q.outside| <= |p.outside| && q.opening == "`" && |q.inside| <= |p.inside| && IsDelimiterValue(q.closing)
    requires |q.outside| < |p.outside| || |q.inside| < |p.inside|
    requires Eval(Through(Raw, p).mode, Encode(p.rest) + "`").State?
    requires Eval(Through(Raw, p).mode, Encode(p.rest) + "`").mode == After
    ensures Glue(q) + Eval(Through(Raw, p).mode, Encode(p.rest) + "`").value != t
  {
    assert "" + (ReadPair(p) + p.rest) == t && "" + Glue(q) == Glue(q);
    assert "" + ReadPair(p) == ReadPair(p);
    PairStaysBehind(t, "", "", p, q);
    NeverCatchesUp(t, ReadPair(p), Glue(q), Through(Raw, p).mode, p.rest);
  }

  // A pair whose value is the pair itself is regular.
  lemma PairInStep(t: string, p: Parts)
    requires HasPair(t) && p == Split(t) && Eval(Raw, Encode(t) + "`") == State(After, t)
    ensures '\r' !in p.outside && Plain(p.inside)
  {
    SplitText(t);
    FiveParts(p.outside, p.inside, p.rest);
    AfterPair(Raw, t, p);
    var q := ThroughPieces(Raw, p);
    if |q.outside| < |p.outside| || |q.inside| < |p.inside| {
      PairFallsBehind(t, p, q);
    } else {
      DropReturnsSame(p.outside);
      Begins(q, t);
      SameLengthPrefix(t, q.outside, p.outside);
    }
  }

  lemma Begins(q: Pieces, t: string)
    requires Glue(q) <= t
    ensures q.outside <= t
  {
    assert Glue(q)[..|q.outside|] == q.outside;
  }

  lemma SameLengthPrefix(t: string, a: string, b: string)
    requires |a| == |b| && b <= t && a <= t
    ensures a == b
  {
    assert a == t[..|a|] && b == t[..|a|];
  }

  lemma {:induction false} PreservedIsPreservable(t: string)
    requires Eval(Raw, Encode(t) + "`") == State(After, t)
    ensures Preservable(t)
    decreases |t|
  {
    if HasPair(t) {
      var p := Split(t);
      PairInStep(t, p);
      RegularPair(p);
      AfterPair(Raw, t, p);
      SplitText(t);
      FiveParts(p.outside, p.inside, p.rest);
      assert t[|ReadPair(p)|..] == p.rest;
      PreservedIsPreservable(p.rest);
      SplitPreservable(t);
    } else {
      LastPart(Raw, t);
      DropReturnsSame(t);
      assert t[..|t|] == t;
    }
  }

  // The constant is read from inside its first raw literal on.
  lemma ConstantValue(t: string, v: string)
    ensures GoValue(Constant(t)) == Some(v) <==> Eval(Raw, Encode(t) + "`") == State(After, v)
  {
    ConstantOpens(t);
    OpenRaw(Constant(t));
  }

  lemma ConstantOpens(t: string)
    ensures Constant(t) != "" && Constant(t)[0] == '`' && Constant(t)[1..] == Encode(t) + "`"
  {
  }

  lemma OpenRaw(src: string)
    requires src != "" && src[0] == '`'
    ensures Eval(Operand, src) == Eval(Raw, src[1..])
  {
    NothingBefore(Eval(Raw, src[1..]));
  }

  // The generated constant is a sum of string literals with the text as its value
  // iff backticks come in pairs, the text in a pair needs no escape, and there is
  // no carriage return outside the pairs.
  lemma PreservedIffPreservable(t: string)
    ensures GoValue(Constant(t)) == Some(t) <==> Preservable(t)
  {
    ConstantValue(t, t);
    if Preservable(t) {
      PreservableIsPreserved(t);
    } else if GoValue(Constant(t)) == Some(t) {
      PreservedIsPreservable(t);
    }
  }

  // ---------- All texts ----------

  // The encoder replaces the first pair of backticks and goes on behind it,
  lemma EncodeReplacesPair(a: string, b: string, rest: string)
    requires NoTick(a) && NoTick(b)
    ensures Encode(a + ("`" + (b + ("`" + rest)))) == a + OPENER + b + CLOSER + Encode(rest)
  {
    var t := a + ("`" + (b + ("`" + rest)));
    Behind(a, b + ("`" + rest));
    Behind(b, rest);
    FirstTickAfter(a, "`" + (b + ("`" + rest)));
    FirstTickAfter(b, "`" + rest);
    SplitEncode(t);
  }

  // and leaves a text without a pair as it is.
  lemma EncodeKeepsTheRest(a: string, b: string)
    requires NoTick(a) && NoTick(b)
    ensures Encode(a) == a && Encode(a + ("`" + b)) == a + ("`" + b)
  {
    Behind(a, b);
    FirstTickAfter(a, "");
    FirstTickAfter(b, "");
    FirstTickAfter(a, "`" + b);
    assert a + "" == a && b + "" == b;
  }

  lemma Behind(a: string, x: string)
    ensures (a + ("`" + x))[..|a|] == a && (a + ("`" + x))[|a| + 1..] == x
  {
  }

  lemma {:induction false} FirstTickAfter(a: string, rest: string)
    requires NoTick(a) && (rest == "" || rest[0] == '`')
    ensures FirstTick(a + rest) == |a|
  {
    if a != "" {
      assert (a + rest)[1..] == a[1..] + rest;
      FirstTickAfter(a[1..], rest);
    } else {
      assert a + rest == rest;
    }
  }

  // ---------- The generated file ----------

  const COMMENT: string := " This file is auto-generated by yamls2go.go"
  const HEADER: string := "//" + COMMENT + "\npackage embeddedyamls\n\nconst (\n"

  function Declaration(name: string, text: string): string
  {
    "\t" + name + " = " + Constant(text) + "\n"
  }

  function Declarations(names: seq<string>, texts: seq<string>): string
    requires |names| == |texts|
  {
    if names == [] then ""
    else
      var n := |names| - 1;
      Declarations(names[..n], texts[..n]) + Declaration(names[n], texts[n])
  }

  // ---------- Reading the file ----------

  datatype Reading = Reading(value: string, rest: string)

  // The value of the literals up to the newline that ends them, and what follows
  function ReadValue(mode: Mode, src: string): (r: Option<Reading>)
    ensures r.Some? ==> |r.value.rest| < |src|
    decreases |src|
  {
    if src == "" then None
    else if mode == After && src[0] == '\n' then Some(Reading("", src[1..]))
    else
      match Step(mode, src[0])
      case Stuck => None
      case State(next, out) =>
        match ReadValue(next, src[1..])
        case None => None
        case Some(r) => Some(Reading(out + r.value, r.rest))
  }

  datatype Const = Const(name: string, value: string)

  function FirstSpace(s: string): (n: nat)
    ensures n <= |s|
  {
    if s == "" || s[0] == ' ' then 0 else 1 + FirstSpace(s[1..])
  }

  // The declarations of a const group, up to its closing line
  function ReadConstants(src: string): Option<seq<Const>>
    decreases |src|
  {
    if src == ")\n" then Some([])
    else if src == "" || src[0] != '\t' then None
    else
      var n := FirstSpace(src[1..]);
      var after := src[1..][n..];
      if |after| < 3 || after[..3] != " = " then None
      else
        match ReadValue(Operand, after[3..])
        case None => None
        case Some(r) =>
          match ReadConstants(r.rest)
          case None => None
          case Some(more) => Some([Const(src[1..][..n], r.value)] + more)
  }

  // A Go file of one comment line, the package clause and a group of these constants
  ghost predicate IsGoFile(file: string, consts: seq<Const>)
  {
    exists comment, body ::
      && file == "//" + comment + "\npackage embeddedyamls\n\nconst (\n" + body
      && '\n' !in comment && ReadConstants(body) == Some(consts)
  }

  lemma {:induction false} ReadsValue(mode: Mode, src: string, value: string, rest: string)
    requires Eval(mode, src) == State(After, value)
    ensures ReadValue(mode, src + ("\n" + rest)) == Some(Reading(value, rest))
    decreases |src|
  {
    var all := src + ("\n" + rest);
    if src == "" {
      assert all[1..] == rest;
    } else {
      assert all[1..] == src[1..] + ("\n" + rest);
      var next := Step(mode, src[0]);
      ReadsValue(next.mode, src[1..], Eval(next.mode, src[1..]).value, rest);
    }
  }

  lemma {:induction false} SpaceAfter(name: string, rest: string)
    requires ' ' !in name && rest != "" && rest[0] == ' '
    ensures FirstSpace(name + rest) == |name|
  {
    if name == "" {
      assert name + rest == rest;
    } else {
      assert (name + rest)[1..] == name[1..] + rest;
      SpaceAfter(name[1..], rest);
    }
  }

  lemma ReadsOne(src: string, name: string, expr: string)
    requires ' ' !in name && src != "" && src[0] == '\t' && src[1..] == name + (" = " + expr)
    requires var r := ReadValue(Operand, expr); r.Some? && ReadConstants(r.value.rest).Some?
    ensures var r := ReadValue(Operand, expr).value;
            ReadConstants(src) == Some([Const(name, r.value)] + ReadConstants(r.rest).value)
  {
    var after := " = " + expr;
    SpaceAfter(name, after);
    assert src[1..][|name|..] == after && src[1..][..|name|] == name;
    assert after[..3] == " = " && after[3..] == expr;
  }

  lemma DeclarationLayout(name: string, text: string, src: string)
    ensures var all := Declaration(name, text) + src;
            all != "" && all[0] == '\t' && all[1..] == name + (" = " + (Constant(text) + ("\n" + src)))
  {
    var value := Constant(text);
    Associate("\t" + name + " = " + value, "\n", src);
    Associate("\t" + name + " = ", value, "\n" + src);
    Associate("\t" + name, " = ", value + ("\n" + src));
    Associate("\t", name, " = " + (value + ("\n" + src)));
  }

  lemma ReadsDeclaration(name: string, text: string, src: string)
    requires ' ' !in name && Preservable(text) && ReadConstants(src).Some?
    ensures ReadConstants(Declaration(name, text) + src) == Some([Const(name, text)] + ReadConstants(src).value)
  {
    DeclarationLayout(name, text, src);
    PreservedIffPreservable(text);
    ReadsValue(Operand, Constant(text), text, src);
    ReadsOne(Declaration(name, text) + src, name, Constant(text) + ("\n" + src));
  }

  function Consts(names: seq<string>, texts: seq<string>): seq<Const>
    requires |names| == |texts|
  {
    seq(|names|, i requires 0 <= i < |names| => Const(names[i], texts[i]))
  }

  lemma {:induction false} ReadsDeclarations(names: seq<string>, texts: seq<string>, src: string)
    requires |names| == |texts| && (forall name <- names :: ' ' !in name) && (forall text <- texts :: Preservable(text))
    requires ReadConstants(src).Some?
    ensures ReadConstants(Declarations(names, texts) + src) == Some(Consts(names, texts) + ReadConstants(src).value)
    decreases |names|
  {
    if names == [] {
      assert Declarations(names, texts) + src == src;
      assert Consts(names, texts) + ReadConstants(src).value == ReadConstants(src).value;
    } else {
      var n := |names| - 1;
      var last := Declaration(names[n], texts[n]);
      ReadsDeclaration(names[n], texts[n], src);
      ReadsDeclarations(names[..n], texts[..n], last + src);
      Associate(Declarations(names[..n], texts[..n]), last, src);
      ConstsSnoc(names, texts, ReadConstants(src).value);
    }
  }

  lemma Associate(a: string, b: string, c: string)
    ensures (a + b) + c == a + (b + c)
  {
  }

  lemma ConstsSnoc(names: seq<string>, texts: seq<string>, more: seq<Const>)
    requires |names| == |texts| > 0
    ensures var n := |names| - 1;
            Consts(names, texts) + more == Consts(names[..n], texts[..n]) + ([Const(names[n], texts[n])] + more)
  {
  }

  // For preservable texts the file declares a constant for each, with the text as its
  // value.
  lemma FileDeclaresTexts(names: seq<string>, texts: seq<string>)
    requires |names| == |texts| && (forall name <- names :: ' ' !in name) && (forall text <- texts :: Preservable(text))
    ensures IsGoFile(HEADER + Declarations(names, texts) + ")\n", Consts(names, texts))
  {
    var body := Declarations(names, texts) + ")\n";
    ReadsDeclarations(names, texts, ")\n");
    assert Consts(names, texts) + [] == Consts(names, texts);
    HeaderIsClause(body);
    Associate(HEADER, Declarations(names, texts), ")\n");
  }

  lemma HeaderIsClause(body: string)
    ensures HEADER + body == "//" + COMMENT + "\npackage embeddedyamls\n\nconst (\n" + body && '\n' !in COMMENT
  {
  }

  /** Writes the header and one constant for each text, in order. */
  method WriteFile(names: seq<string>, texts: seq<string>) returns (out: string)
    requires |names| == |texts|
    ensures out == HEADER + Declarations(names, texts) + ")\n"
    ensures (forall name <- names :: ' ' !in name) && (forall text <- texts :: Preservable(text)) ==>
              IsGoFile(out, Consts(names, texts))
  {
    out := HEADER;
    for k := 0 to |names|
      invariant out == HEADER + Declarations(names[..k], texts[..k])
    {
      ghost var before := out;
      out := out + "\t" + names[k] + " = `";
      out := out + Encode(texts[k]);
      out := out + "`\n";
      OneMore(before, names[k], texts[k]);
      MoreDeclarations(names, texts, k);
    }
    assert names[..|names|] == names && texts[..|texts|] == texts;
    out := out + ")\n";
    if (forall name <- names :: ' ' !in name) && (forall text <- texts :: Preservable(text)) {
      FileDeclaresTexts(names, texts);
    }
  }

  lemma MoreDeclarations(names: seq<string>, texts: seq<string>, k: nat)
    requires |names| == |texts| && k < |names|
    ensures HEADER + Declarations(names[..k + 1], texts[..k + 1])
            == (HEADER + Declarations(names[..k], texts[..k])) + Declaration(names[k], texts[k])
  {
    assert names[..k + 1][..k] == names[..k] && texts[..k + 1][..k] == texts[..k];
  }

  lemma OneMore(before: string, name: string, text: string)
    ensures ((before + "\t" + name + " = `") + Encode(text)) + "`\n" == before + Declaration(name, text)
  {
    assert " = `" == " = " + "`" && "`\n" == "`" + "\n";
  }
}
