/**
 * The stream-output normaliser of backend/main.py: `simple_apply_backspace`,
 * `apply_backspace` (backspaces that skip over ANSI escape runs) and `fixlines`
 * (carriage-return handling line by line).
 *
 * Escape runs are tokenised with the escape-sequence syntax of ECMA-48:
 * section 5.3 (ESC followed by one byte 0x40-0x5F, except '[') and
 * section 5.4 (control sequences: ESC '[', parameter bytes 0x30-0x3F,
 * intermediate bytes 0x20-0x2F, one final byte 0x40-0x7E).
 */
module OutputNormalizer {
  import opened Wrappers

  const BS: char := '\U{8}'
  const ESC: char := '\U{1B}'

  /** Concatenation of a list of strings (Python's "".join). */
  function Join(parts: seq<string>): string
  {
    if parts == [] then "" else parts[0] + Join(parts[1..])
  }

  // ---------------------------------------------------------------------
  // One substitution pass of the pattern [^\x08]\x08 and its fixed point
  // ---------------------------------------------------------------------

  /** The pattern [^\x08]\x08 matches at position i of s. */
  ghost predicate ErasableAt(s: string, i: int)
  {
    0 <= i && i + 1 < |s| && s[i] != BS && s[i + 1] == BS
  }

  ghost predicate HasErasable(s: string)
  {
    exists i :: ErasableAt(s, i)
  }

  /** re.sub(r"[^\x08]\x08", "", s): a left-to-right scan removing non-overlapping matches. */
  function ErasePass(s: string): (r: string)
    ensures |r| <= |s|
    decreases |s|
  {
    if |s| < 2 then s
    else if s[0] != BS && s[1] == BS then ErasePass(s[2..])
    else [s[0]] + ErasePass(s[1..])
  }

  /** A pass shortens its input exactly when the pattern matches somewhere, and otherwise is the identity. */
  lemma {:induction false} ErasePassShrinks(s: string)
    ensures |ErasePass(s)| < |s| <==> HasErasable(s)
    ensures |ErasePass(s)| == |s| ==> ErasePass(s) == s
    decreases |s|
  {
    if |s| < 2 {
      if HasErasable(s) {
        var i :| ErasableAt(s, i);
      }
    } else if s[0] != BS && s[1] == BS {
      assert ErasableAt(s, 0);
    } else {
      ErasePassShrinks(s[1..]);
      if HasErasable(s) {
        var i :| ErasableAt(s, i);
        assert ErasableAt(s[1..], i - 1);
      }
      if HasErasable(s[1..]) {
        var i :| ErasableAt(s[1..], i);
        assert ErasableAt(s, i + 1);
      }
    }
  }

  /** The result of simple_apply_backspace: passes repeated until no backspace or no change. */
  function Simplified(s: string): (r: string)
    decreases |s|
  {
    var t := ErasePass(s);
    if BS !in t then t
    else if |s| == |t| then t
    else Simplified(t)
  }

  /** simple_apply_backspace (backend/main.py:314-321). */
  method SimpleApplyBackspace(s0: string) returns (t: string)
    ensures t == Simplified(s0)
  {
    var s := s0;
    while true
      invariant Simplified(s) == Simplified(s0)
      decreases |s|
    {
      t := ErasePass(s);
      if BS !in t {
        return;
      }
      if |s| == |t| {
        return;
      }
      s := t;
    }
  }

  /** Number of leading backspaces; s[LeadingBS(s)..] is Python's s.lstrip("\b"). */
  function LeadingBS(s: string): (n: nat)
    ensures n <= |s|
    ensures forall i :: 0 <= i < n ==> s[i] == BS
    ensures n < |s| ==> s[n] != BS
    decreases |s|
  {
    if s != [] && s[0] == BS then 1 + LeadingBS(s[1..]) else 0
  }

  /** The fixed point of the pass contains no match of the pattern. */
  lemma {:induction false} SimplifiedStable(s: string)
    ensures !HasErasable(Simplified(s))
    decreases |s|
  {
    var t := ErasePass(s);
    ErasePassShrinks(s);
    if BS !in t {
    } else if |s| == |t| {
    } else {
      SimplifiedStable(t);
    }
  }

  /** Without a match, every backspace belongs to the leading run. */
  lemma {:induction false} NoBackspaceAfterLead(s: string, i: int)
    requires !HasErasable(s)
    requires LeadingBS(s) <= i < |s|
    ensures s[i] != BS
    decreases i
  {
    if i > LeadingBS(s) {
      NoBackspaceAfterLead(s, i - 1);
      assert !ErasableAt(s, i - 1);
    }
  }

  /** simple_apply_backspace returns some backspaces followed by a backspace-free tail. */
  lemma SimplifiedShape(s: string)
    ensures var r := Simplified(s);
            forall i :: LeadingBS(r) <= i < |r| ==> r[i] != BS
  {
    var r := Simplified(s);
    SimplifiedStable(s);
    forall i | LeadingBS(r) <= i < |r|
      ensures r[i] != BS
    {
      NoBackspaceAfterLead(r, i);
    }
  }

  /** Stripping the leading run of the result leaves no backspace. */
  lemma StrippedSimplifiedHasNoBS(s: string)
    ensures var r := Simplified(s);
            BS !in r[LeadingBS(r)..]
  {
    var r := Simplified(s);
    SimplifiedShape(s);
  }

  // ---------------------------------------------------------------------
  // Escape runs: the regex ((?:\x1B(?:[@-Z\\-_]|\[[0-?]*[ -/]*[@-~]))+)
  // ---------------------------------------------------------------------

  /** Second byte of a two-byte escape, ECMA-48 section 5.3 as the pattern writes it (0x40-0x5A, 0x5C-0x5F). */
  predicate IsFe(c: char)
  {
    ('@' <= c <= 'Z') || ('\\' <= c <= '_')
  }

  /** Final byte of a control sequence, ECMA-48 section 5.4 (0x40-0x7E). */
  predicate IsFinal(c: char)
  {
    '@' <= c <= '~'
  }

  /** Length of the longest prefix of s whose characters lie in lo..hi. */
  function SpanIn(s: string, lo: char, hi: char): (n: nat)
    ensures n <= |s|
    ensures forall i :: 0 <= i < n ==> lo <= s[i] <= hi
    ensures n < |s| ==> !(lo <= s[n] <= hi)
    decreases |s|
  {
    if s != [] && lo <= s[0] <= hi then 1 + SpanIn(s[1..], lo, hi) else 0
  }

  /** Length of the escape sequence that starts s, or 0 when s does not start with one. */
  function EscLen(s: string): (n: nat)
    ensures n <= |s|
    ensures n != 1
  {
    if |s| >= 2 && s[0] == ESC && IsFe(s[1]) then 2
    else if |s| >= 2 && s[0] == ESC && s[1] == '[' then
      var p := SpanIn(s[2..], '0', '?');   // parameter bytes 0x30-0x3F
      var q := SpanIn(s[2 + p..], ' ', '/'); // intermediate bytes 0x20-0x2F
      if 2 + p + q < |s| && IsFinal(s[2 + p + q]) then 3 + p + q else 0
    else 0
  }

  /** No escape sequence contains a backspace. */
  lemma EscapeHasNoBS(s: string, i: int)
    requires 0 <= i < EscLen(s)
    ensures s[i] != BS
  {
    if i >= 2 {
      assert s[1] == '[' && !IsFe(s[1]);
      var p := SpanIn(s[2..], '0', '?');
      var q := SpanIn(s[2 + p..], ' ', '/');
      if i < 2 + p {
        assert s[2..][i - 2] == s[i];
        assert '0' <= s[2..][i - 2] <= '?';
      } else if i < 2 + p + q {
        assert s[2 + p..][i - 2 - p] == s[i];
        assert ' ' <= s[2 + p..][i - 2 - p] <= '/';
      } else {
        assert i == 2 + p + q && IsFinal(s[i]);
      }
    }
  }

  /** Length of the maximal run of consecutive escape sequences that starts s. */
  function RunLen(s: string): (n: nat)
    ensures n <= |s|
    decreases |s|
  {
    var e := EscLen(s);
    if e > 0 then e + RunLen(s[e..]) else 0
  }

  lemma {:induction false} RunHasNoBS(s: string, i: int)
    requires 0 <= i < RunLen(s)
    ensures s[i] != BS
    decreases |s|
  {
    var e := EscLen(s);
    if i < e {
      EscapeHasNoBS(s, i);
    } else {
      RunHasNoBS(s[e..], i - e);
    }
  }

  /** Two numbers two apart are both odd or both even. */
  lemma OddShift(a: int, b: int)
    requires a == b + 2 || b == a + 2
    ensures a % 2 == b % 2
  {
  }

  /**
   * ansi_codes.split(s): text, run, text, run, ..., text. Entries at odd
   * positions are the escape runs, entries at even positions the text between.
   */
  function Split(s: string): (acs: seq<string>)
    ensures |acs| % 2 == 1
    decreases |s|
  {
    if s == [] then [""]
    else
      var r := RunLen(s);
      if r > 0 then
        var tail := Split(s[r..]);
        OddShift(|tail| + 2, |tail|);
        ["", s[..r]] + tail
      else
        var rest := Split(s[1..]);
        assert |[[s[0]] + rest[0]] + rest[1..]| == |rest|;
        [[s[0]] + rest[0]] + rest[1..]
  }

  lemma JoinCons(x: string, xs: seq<string>)
    ensures Join([x] + xs) == x + Join(xs)
  {
    assert ([x] + xs)[1..] == xs;
  }

  lemma {:induction false} JoinAppend(a: seq<string>, b: seq<string>)
    ensures Join(a + b) == Join(a) + Join(b)
    decreases |a|
  {
    if a == [] {
      assert a + b == b;
    } else {
      assert a + b == [a[0]] + (a[1..] + b);
      JoinCons(a[0], a[1..] + b);
      JoinAppend(a[1..], b);
    }
  }

  /** Split on input that starts with an escape run. */
  lemma SplitRunCase(s: string)
    requires s != [] && RunLen(s) > 0
    ensures Split(s) == ["", s[..RunLen(s)]] + Split(s[RunLen(s)..])
  {
  }

  /** Split on input that starts with a text character. */
  lemma SplitTextCase(s: string)
    requires s != [] && RunLen(s) == 0
    ensures Split(s) == [[s[0]] + Split(s[1..])[0]] + Split(s[1..])[1..]
  {
  }

  lemma JoinRunPieces(s: string, r: nat, tail: seq<string>)
    requires r <= |s|
    requires Join(tail) == s[r..]
    ensures Join(["", s[..r]] + tail) == s
  {
    assert ["", s[..r]] + tail == [""] + ([s[..r]] + tail);
    JoinCons("", [s[..r]] + tail);
    JoinCons(s[..r], tail);
    assert s == s[..r] + s[r..];
  }

  lemma JoinTextPieces(s: string, rest: seq<string>)
    requires s != [] && rest != []
    requires Join(rest) == s[1..]
    ensures Join([[s[0]] + rest[0]] + rest[1..]) == s
  {
    JoinCons([s[0]] + rest[0], rest[1..]);
    JoinCons(rest[0], rest[1..]);
    assert rest == [rest[0]] + rest[1..];
    assert s == [s[0]] + s[1..];
  }

  /** Splitting loses nothing: joining the pieces gives back the input. */
  lemma {:induction false} SplitJoin(s: string)
    ensures Join(Split(s)) == s
    decreases |s|
  {
    if s != [] {
      var r := RunLen(s);
      if r > 0 {
        SplitJoin(s[r..]);
        SplitRunCase(s);
        JoinRunPieces(s, r, Split(s[r..]));
      } else {
        SplitJoin(s[1..]);
        SplitTextCase(s);
        JoinTextPieces(s, Split(s[1..]));
      }
    }
  }

  /** The run at the head of s is non-empty when it exists and holds no backspace. */
  lemma RunPrefixNoBS(s: string)
    requires RunLen(s) > 0
    ensures s[..RunLen(s)] != "" && BS !in s[..RunLen(s)]
  {
    var r := RunLen(s);
    if BS in s[..r] {
      var i :| 0 <= i < r && s[..r][i] == BS;
      RunHasNoBS(s, i);
    }
  }

  lemma SplitPieceAfterRun(s: string, j: int)
    requires s != [] && RunLen(s) > 0 && 2 <= j < |Split(s)|
    ensures j - 2 < |Split(s[RunLen(s)..])| && Split(s)[j] == Split(s[RunLen(s)..])[j - 2]
  {
    SplitRunCase(s);
    PairThenIndex("", s[..RunLen(s)], Split(s[RunLen(s)..]), j);
  }

  lemma SplitPieceAfterText(s: string, j: int)
    requires s != [] && RunLen(s) == 0 && 1 <= j < |Split(s)|
    ensures j < |Split(s[1..])| && Split(s)[j] == Split(s[1..])[j]
  {
    SplitTextCase(s);
    var rest := Split(s[1..]);
    HeadReplacedIndex([s[0]] + rest[0], rest, j);
  }

  lemma PairThenIndex(a: string, b: string, tail: seq<string>, j: int)
    requires 2 <= j < |[a, b] + tail|
    ensures j - 2 < |tail| && ([a, b] + tail)[j] == tail[j - 2]
  {
  }

  lemma HeadReplacedIndex(a: string, rest: seq<string>, j: int)
    requires rest != [] && 1 <= j < |[a] + rest[1..]|
    ensures j < |rest| && ([a] + rest[1..])[j] == rest[j]
  {
  }

  /** The escape runs: non-empty, made of whole escape sequences, and free of backspaces. */
  lemma {:induction false} SplitRuns(s: string, h: nat)
    requires 2 * h + 1 < |Split(s)|
    ensures Split(s)[2 * h + 1] != ""
    ensures BS !in Split(s)[2 * h + 1]
    decreases |s|, 1
  {
    if s == [] {
    } else if RunLen(s) > 0 {
      SplitRunsAfterRun(s, h);
    } else {
      SplitPieceAfterText(s, 2 * h + 1);
      SplitRuns(s[1..], h);
    }
  }

  /** SplitRuns on input that starts with an escape run. */
  lemma {:induction false} SplitRunsAfterRun(s: string, h: nat)
    requires s != [] && RunLen(s) > 0 && 2 * h + 1 < |Split(s)|
    ensures Split(s)[2 * h + 1] != ""
    ensures BS !in Split(s)[2 * h + 1]
    decreases |s|, 0
  {
    if h == 0 {
      SplitRunCase(s);
      RunPrefixNoBS(s);
    } else {
      SplitPieceAfterRun(s, 2 * h + 1);
      SplitRuns(s[RunLen(s)..], h - 1);
    }
  }

  // ---------------------------------------------------------------------
  // apply_backspace
  // ---------------------------------------------------------------------

  /**
   * The right-to-left loop of apply_backspace from position i down: each text
   * piece absorbs the backspaces carried over the escape run to its right,
   * keeps its backspace-free tail, and hands its leading backspaces on.
   */
  function Backward(acs: seq<string>, i: int, carry: string): seq<string>
    requires i < |acs|
    decreases i + 2
  {
    if i < 0 then acs
    else
      var v := Simplified(acs[i] + carry);
      var n := LeadingBS(v);
      Backward(acs[i := v[n..]], i - 2, v[..n])
  }

  /** What apply_backspace(s) returns. */
  function Backspaced(s: string): string
  {
    if BS !in s then s
    else
      var acs := Split(s);
      Join(Backward(acs, |acs| - 1, ""))
  }

  /** apply_backspace (backend/main.py:324-338). */
  method ApplyBackspace(s: string) returns (r: string)
    ensures r == Backspaced(s)
  {
    if BS !in s {
      return s;
    }
    var acs := Split(s);
    ghost var acs0 := acs;
    var carry := "";
    var i := |acs| - 1;
    while i > -1
      invariant -2 <= i < |acs|
      invariant Backward(acs, i, carry) == Backward(acs0, |acs0| - 1, "")
      decreases i + 2
    {
      var v := SimpleApplyBackspace(acs[i] + carry);
      var n := LeadingBS(v);
      acs := acs[i := v[n..]];
      carry := v[..n];
      i := i - 2;
    }
    r := Join(acs);
  }

  /**
   * The loop keeps the pieces it does not visit (the escape runs and everything
   * right of i) and leaves no backspace in the pieces it visits.
   */
  lemma {:induction false} BackwardKeeps(acs: seq<string>, i: int, carry: string)
    requires -2 <= i < |acs|
    ensures |Backward(acs, i, carry)| == |acs|
    ensures forall j :: 0 <= j < |acs| && (j > i || (i - j) % 2 == 1) ==> Backward(acs, i, carry)[j] == acs[j]
    ensures forall j :: 0 <= j <= i && (i - j) % 2 == 0 ==> BS !in Backward(acs, i, carry)[j]
    decreases i + 2
  {
    if i >= 0 {
      var v := Simplified(acs[i] + carry);
      var n := LeadingBS(v);
      var acs1 := acs[i := v[n..]];
      StrippedSimplifiedHasNoBS(acs[i] + carry);
      BackwardKeeps(acs1, i - 2, v[..n]);
      var r := Backward(acs, i, carry);
      assert r == Backward(acs1, i - 2, v[..n]);
      forall j | 0 <= j < |acs| && (j > i || (i - j) % 2 == 1)
        ensures r[j] == acs[j]
      {
        assert j > i - 2 || (i - 2 - j) % 2 == 1;
        assert j != i;
      }
      forall j | 0 <= j <= i && (i - j) % 2 == 0
        ensures BS !in r[j]
      {
        if j < i {
          assert j <= i - 2 && (i - 2 - j) % 2 == 0;
        } else {
          assert r[i] == acs1[i];
        }
      }
    }
  }

  lemma JoinNoBS(parts: seq<string>)
    requires forall j :: 0 <= j < |parts| ==> BS !in parts[j]
    ensures BS !in Join(parts)
  {
    if parts != [] {
      JoinNoBS(parts[1..]);
    }
  }

  /** apply_backspace leaves no backspace in its result. */
  lemma BackspacedHasNoBS(s: string)
    ensures BS !in Backspaced(s)
  {
    if BS in s {
      var acs := Split(s);
      BackwardPieces(s);
      JoinNoBS(Backward(acs, |acs| - 1, ""));
    }
  }

  /** apply_backspace is the identity on text without a backspace. */
  lemma BackspacedIdentity(s: string)
    requires BS !in s
    ensures Backspaced(s) == s
  {
  }

  /** apply_backspace is idempotent. */
  lemma BackspacedIdempotent(s: string)
    ensures Backspaced(Backspaced(s)) == Backspaced(s)
  {
    BackspacedHasNoBS(s);
  }

  /**
   * Every escape run of the input survives verbatim and in order: the result is
   * the join of a list of pieces whose odd positions are exactly the input's
   * escape runs and whose even positions hold backspace-free text.
   */
  lemma BackspacedKeepsEscapes(s: string)
    requires BS in s
    ensures exists out: seq<string> ::
              && |out| == |Split(s)|
              && (forall j :: 0 <= j < |out| && j % 2 == 1 ==> out[j] == Split(s)[j])
              && (forall j :: 0 <= j < |out| ==> BS !in out[j])
              && Join(out) == Backspaced(s)
  {
    var acs := Split(s);
    var out := Backward(acs, |acs| - 1, "");
    assert Join(out) == Backspaced(s);
    BackwardPieces(s);
  }

  /** The pieces apply_backspace joins keep the escape runs and hold no backspace. */
  lemma BackwardPieces(s: string)
    ensures var acs := Split(s);
            var out := Backward(acs, |acs| - 1, "");
            && |out| == |acs|
            && (forall j :: 0 <= j < |out| && j % 2 == 1 ==> out[j] == acs[j])
            && (forall j :: 0 <= j < |out| ==> BS !in out[j])
  {
    var acs := Split(s);
    forall j | 0 <= j < |acs| && j % 2 == 1
      ensures BS !in acs[j]
    {
      assert j == 2 * (j / 2) + 1;
      SplitRuns(s, j / 2);
    }
    BackwardClean(acs);
  }

  lemma BackwardClean(acs: seq<string>)
    requires |acs| % 2 == 1
    requires forall j :: 0 <= j < |acs| && j % 2 == 1 ==> BS !in acs[j]
    ensures var out := Backward(acs, |acs| - 1, "");
            && |out| == |acs|
            && (forall j :: 0 <= j < |out| && j % 2 == 1 ==> out[j] == acs[j])
            && (forall j :: 0 <= j < |out| ==> BS !in out[j])
  {
    var out := Backward(acs, |acs| - 1, "");
    BackwardKeeps(acs, |acs| - 1, "");
    forall j | 0 <= j < |out|
      ensures BS !in out[j]
    {
      if j % 2 == 1 {
        assert out[j] == acs[j];
      } else {
        assert (|acs| - 1 - j) % 2 == 0;
      }
    }
  }

  /** Text without escape sequences is one piece: the result is the fixed point with its leading backspaces stripped. */
  lemma BackspacedPlainText(s: string)
    requires BS in s
    requires ESC !in s
    ensures var v := Simplified(s); Backspaced(s) == v[LeadingBS(v)..]
  {
    NoEscapeSplit(s);
    BackwardSingle(s);
    var v := Simplified(s);
    JoinCons(v[LeadingBS(v)..], []);
  }

  lemma BackwardSingle(x: string)
    ensures var v := Simplified(x); Backward([x], 0, "") == [v[LeadingBS(v)..]]
  {
    assert x + "" == x;
  }

  lemma {:induction false} NoEscapeSplit(s: string)
    requires ESC !in s
    ensures Split(s) == [s]
    decreases |s|
  {
    if s != [] {
      assert s[0] != ESC;
      assert RunLen(s) == 0;
      NoEscapeSplit(s[1..]);
      assert [s[0]] + s[1..] == s;
    }
  }

  lemma {:induction false} ErasePassNoBS(s: string)
    requires BS !in s
    ensures ErasePass(s) == s
    decreases |s|
  {
    if |s| >= 2 {
      assert s[1] != BS;
      ErasePassNoBS(s[1..]);
      assert [s[0]] + s[1..] == s;
    }
  }

  /** ESC [ ? 2 5 h is one control sequence of six characters, whatever follows it. */
  lemma ShowCursorEscLen(t: string)
    ensures EscLen([ESC] + "[?25h" + t) == 6
  {
    var s := [ESC] + "[?25h" + t;
    assert s[0] == ESC && s[1] == '[' && !IsFe(s[1]);
    var u := s[2..];
    assert u[0] == '?' && u[1] == '2' && u[2] == '5' && u[3] == 'h';
    var p := SpanIn(u, '0', '?');
    assert p == 3;
    assert s[2 + p..][0] == 'h';
    assert SpanIn(s[2 + p..], ' ', '/') == 0;
    assert IsFinal(s[5]);
  }

  /** After the control sequence comes text that starts with a backspace. */
  lemma ShowCursorSplit(text: string)
    requires text != [] && text[0] == BS && ESC !in text
    ensures Split([ESC] + "[?25h" + text) == ["", [ESC] + "[?25h", text]
  {
    var code := [ESC] + "[?25h";
    var s := code + text;
    ShowCursorEscLen(text);
    assert s[6..] == text;
    assert EscLen(text) == 0;
    assert RunLen(text) == 0;
    assert RunLen(s) == 6;
    assert s[..6] == code;
    SplitRunCase(s);
    NoEscapeSplit(text);
  }

  /** One pass removes " \b"; the leading backspace stays and the next pass changes nothing. */
  lemma EraseSpaceBackspace(tail: string)
    requires tail != [] && BS !in tail
    ensures Simplified([BS, ' ', BS] + tail) == [BS] + tail
  {
    var text := [BS, ' ', BS] + tail;
    var t := [BS] + tail;
    ErasePassNoBS(tail);
    assert text[1..] == [' ', BS] + tail;
    assert ([' ', BS] + tail)[2..] == tail;
    assert ErasePass(text[1..]) == tail;
    assert ErasePass(text) == t;
    assert t[1..] == tail;
    assert ErasePass(t) == t;
  }

  /** The text piece absorbs nothing and hands its leading backspace to the empty piece before the run. */
  lemma CanceledBackward(code: string, text: string, tail: string)
    requires Simplified(text) == [BS] + tail
    requires tail != [] && tail[0] != BS
    ensures Backward(["", code, text], 2, "") == ["", code, tail]
  {
    var t := [BS] + tail;
    assert text + "" == text;
    assert LeadingBS(t) == 1 && t[1..] == tail && t[..1] == [BS];
    assert ["", code, text][2 := tail] == ["", code, tail];
    assert "" + [BS] == [BS];
    assert ErasePass([BS]) == [BS];
    assert LeadingBS([BS]) == 1;
    assert ["", code, tail][0 := ""] == ["", code, tail];
  }

  /** A control sequence, then " \b" erased and one backspace that has nothing left to erase. */
  lemma CanceledShape(tail: string)
    requires tail != [] && BS !in tail && ESC !in tail
    ensures Backspaced([ESC] + "[?25h" + ([BS, ' ', BS] + tail)) == [ESC] + "[?25h" + tail
  {
    var code := [ESC] + "[?25h";
    var s := code + ([BS, ' ', BS] + tail);
    CanceledPieces(tail);
    BackspacedOf(s, ["", code, tail]);
    JoinThree("", code, tail);
  }

  /** The pieces of the canceled case before they are joined. */
  lemma CanceledPieces(tail: string)
    requires tail != [] && BS !in tail && ESC !in tail
    ensures var s := [ESC] + "[?25h" + ([BS, ' ', BS] + tail);
            && BS in s
            && Backward(Split(s), |Split(s)| - 1, "") == ["", [ESC] + "[?25h", tail]
  {
    var code := [ESC] + "[?25h";
    var text := [BS, ' ', BS] + tail;
    var s := code + text;
    assert s[6] == BS;
    ShowCursorSplit(text);
    EraseSpaceBackspace(tail);
    CanceledBackward(code, text, tail);
  }

  lemma BackspacedOf(s: string, out: seq<string>)
    requires BS in s && Backward(Split(s), |Split(s)| - 1, "") == out
    ensures Backspaced(s) == Join(out)
  {
  }

  lemma JoinThree(a: string, b: string, c: string)
    ensures Join([a, b, c]) == a + b + c
  {
    JoinCons(a, [b, c]);
    JoinCons(b, [c]);
    JoinCons(c, []);
  }

  /** The case that shows up after `%pip install`: "\x1b[?25h\x08 \x08canceled\r\n". */
  lemma CanceledExample()
    ensures Backspaced([ESC] + "[?25h" + ([BS, ' ', BS] + "canceled\r\n")) == [ESC] + "[?25h" + "canceled\r\n"
  {
    var tail := "canceled\r\n";
    assert BS !in tail && ESC !in tail;
    CanceledShape(tail);
  }

  // ---------------------------------------------------------------------
  // fixlines: str.splitlines(True) and carriage-return handling
  // ---------------------------------------------------------------------

  /** The line boundaries of Python's str.splitlines. */
  predicate IsLineBreak(c: char)
  {
    c == '\n' || c == '\r' || c == '\U{B}' || c == '\U{C}' || c == '\U{1C}' || c == '\U{1D}'
    || c == '\U{1E}' || c == '\U{85}' || c == '\U{2028}' || c == '\U{2029}'
  }

  /** Length of the first line of s, its terminator included ("\r\n" is one terminator). */
  function FirstLineLen(s: string): (n: nat)
    requires s != []
    ensures 0 < n <= |s|
    decreases |s|
  {
    if IsLineBreak(s[0]) then
      (if s[0] == '\r' && |s| >= 2 && s[1] == '\n' then 2 else 1)
    else if |s| == 1 then 1
    else 1 + FirstLineLen(s[1..])
  }

  /** str.splitlines(True): the lines of s, each keeping its terminator. */
  function SplitLines(s: string): (lines: seq<string>)
    ensures (lines == []) == (s == [])
    ensures forall k :: 0 <= k < |lines| ==> lines[k] != ""
    decreases |s|
  {
    if s == [] then []
    else
      var n := FirstLineLen(s);
      [s[..n]] + SplitLines(s[n..])
  }

  /** Splitting into lines loses nothing. */
  lemma {:induction false} SplitLinesJoin(s: string)
    ensures Join(SplitLines(s)) == s
    decreases |s|
  {
    if s != [] {
      var n := FirstLineLen(s);
      SplitLinesJoin(s[n..]);
      assert s == s[..n] + s[n..];
    }
  }

  /** A line that a later line overwrites: it ends in a bare carriage return. */
  predicate EndsInCR(line: string)
  {
    |line| > 0 && line[|line| - 1] == '\r'
  }

  /** What one non-final line contributes: nothing when a carriage return ends it, else the line backspaced. */
  function Kept(line: string): string
  {
    if EndsInCR(line) then "" else Backspaced(line)
  }

  /** What the kept non-final lines contribute, in order. */
  function KeptText(lines: seq<string>): string
  {
    if lines == [] then ""
    else KeptText(lines[..|lines| - 1]) + Kept(lines[|lines| - 1])
  }

  /** What fixlines(s) returns; None where it raises IndexError (the empty string). */
  function FixedLines(s: string): Option<string>
  {
    var lines := SplitLines(s);
    if lines == [] then None
    else Some(KeptText(lines[..|lines| - 1]) + Backspaced(lines[|lines| - 1]))
  }

  /** fixlines (backend/main.py:345-354); None stands for the IndexError on the empty string. */
  method FixLines(fulltext: string) returns (r: Option<string>)
    ensures r == FixedLines(fulltext)
  {
    var lines := SplitLines(fulltext);
    if |lines| == 0 {
      // the loop does nothing and lines[-1] raises IndexError
      return None;
    }
    var newlines: seq<string> := [];
    var i := 0;
    while i < |lines| - 1
      invariant 0 <= i <= |lines| - 1
      invariant Join(newlines) == KeptText(lines[..i])
    {
      ghost var prior := newlines;
      newlines := KeepLine(newlines, lines[i]);
      FixStep(prior, lines, i, newlines);
      i := i + 1;
    }
    var last := ApplyBackspace(lines[|lines| - 1]);
    FixedLinesOf(fulltext, newlines, last);
    r := Some(Join(newlines) + last);
  }

  /** The loop body of fixlines: a line that a carriage return ends is dropped, any other is kept backspaced. */
  method KeepLine(newlines: seq<string>, line: string) returns (next: seq<string>)
    requires line != ""
    ensures next == if EndsInCR(line) then newlines else newlines + [Backspaced(line)]
  {
    next := newlines;
    if line[|line| - 1] != '\r' {
      var b := ApplyBackspace(line);
      next := newlines + [b];
    }
  }

  lemma FixedLinesOf(s: string, kept: seq<string>, last: string)
    requires SplitLines(s) != []
    requires Join(kept) == KeptText(SplitLines(s)[..|SplitLines(s)| - 1])
    requires last == Backspaced(SplitLines(s)[|SplitLines(s)| - 1])
    ensures FixedLines(s) == Some(Join(kept) + last)
  {
  }

  /** fixlines raises exactly on the empty string. */
  lemma FixedLinesFails(s: string)
    ensures FixedLines(s).None? <==> s == ""
  {
  }

  lemma {:induction false} KeptTextNoBS(lines: seq<string>)
    ensures BS !in KeptText(lines)
    decreases |lines|
  {
    if lines != [] {
      KeptTextNoBS(lines[..|lines| - 1]);
      BackspacedHasNoBS(lines[|lines| - 1]);
    }
  }

  /** fixlines leaves no backspace in its result. */
  lemma FixedLinesHasNoBS(s: string)
    requires s != ""
    ensures FixedLines(s).Some? && BS !in FixedLines(s).value
  {
    var lines := SplitLines(s);
    KeptTextNoBS(lines[..|lines| - 1]);
    BackspacedHasNoBS(lines[|lines| - 1]);
  }

  /** One round of the fixlines loop extends the kept text by what line i contributes. */
  lemma FixStep(prior: seq<string>, lines: seq<string>, i: int, next: seq<string>)
    requires 0 <= i < |lines| && Join(prior) == KeptText(lines[..i])
    requires next == if EndsInCR(lines[i]) then prior else prior + [Backspaced(lines[i])]
    ensures Join(next) == KeptText(lines[..i + 1])
  {
    var line := lines[i];
    KeptTextAt(lines, i);
    if !EndsInCR(line) {
      JoinSnoc(prior, Backspaced(line));
    }
  }

  lemma KeptTextAt(lines: seq<string>, i: int)
    requires 0 <= i < |lines|
    ensures KeptText(lines[..i + 1]) == KeptText(lines[..i]) + Kept(lines[i])
  {
    assert lines[..i] + [lines[i]] == lines[..i + 1];
    KeptTextSnoc(lines[..i], lines[i]);
  }

  lemma JoinSnoc(a: seq<string>, x: string)
    ensures Join(a + [x]) == Join(a) + x
  {
    JoinAppend(a, [x]);
    JoinCons(x, []);
  }

  lemma KeptTextSnoc(lines: seq<string>, x: string)
    ensures KeptText(lines + [x]) == KeptText(lines) + Kept(x)
  {
    assert (lines + [x])[..|lines|] == lines;
  }

  lemma {:induction false} KeptTextPlain(lines: seq<string>)
    requires forall k :: 0 <= k < |lines| ==> BS !in lines[k] && !EndsInCR(lines[k])
    ensures KeptText(lines) == Join(lines)
    decreases |lines|
  {
    if lines != [] {
      var init := lines[..|lines| - 1];
      var last := lines[|lines| - 1];
      assert init + [last] == lines;
      KeptTextPlain(init);
      KeptTextSnoc(init, last);
      JoinAppend(init, [last]);
      JoinCons(last, []);
    }
  }

  lemma {:induction false} SplitLinesPieces(s: string, k: int)
    requires 0 <= k < |SplitLines(s)|
    ensures forall c :: c in SplitLines(s)[k] ==> c in s
    decreases |s|
  {
    var n := FirstLineLen(s);
    if k > 0 {
      SplitLinesPieces(s[n..], k - 1);
    }
  }

  /** Joining all lines but the last, then the last, gives the whole text. */
  lemma JoinInitLast(lines: seq<string>)
    requires lines != []
    ensures Join(lines[..|lines| - 1]) + lines[|lines| - 1] == Join(lines)
  {
    var init := lines[..|lines| - 1];
    assert init + [lines[|lines| - 1]] == lines;
    JoinAppend(init, [lines[|lines| - 1]]);
    JoinCons(lines[|lines| - 1], []);
  }

  /** Text without backspaces or carriage returns passes through fixlines unchanged. */
  lemma FixedLinesPlain(s: string)
    requires s != ""
    requires BS !in s && '\r' !in s
    ensures FixedLines(s) == Some(s)
  {
    var lines := SplitLines(s);
    forall k | 0 <= k < |lines|
      ensures BS !in lines[k] && !EndsInCR(lines[k])
    {
      SplitLinesPieces(s, k);
    }
    var init := lines[..|lines| - 1];
    KeptTextPlain(init);
    BackspacedIdentity(lines[|lines| - 1]);
    JoinInitLast(lines);
    SplitLinesJoin(s);
  }

  lemma {:induction false} FirstLineOfOverwritten(a: string, b: string)
    requires forall c :: c in a ==> !IsLineBreak(c)
    requires b != [] && b[0] != '\n'
    ensures FirstLineLen(a + "\r" + b) == |a| + 1
    decreases |a|
  {
    var s := a + "\r" + b;
    if a != [] {
      assert a[0] in a;
      assert s[1..] == a[1..] + "\r" + b;
      FirstLineOfOverwritten(a[1..], b);
    }
  }

  lemma ConsSnoc(x: string, lines: seq<string>)
    requires lines != []
    ensures [x] + lines == ([x] + lines[..|lines| - 1]) + [lines[|lines| - 1]]
    ensures lines == lines[..|lines| - 1] + [lines[|lines| - 1]]
  {
  }

  /** A line put in front contributes its own text ahead of the others. */
  lemma {:induction false} KeptTextCons(x: string, lines: seq<string>)
    ensures KeptText([x] + lines) == Kept(x) + KeptText(lines)
    decreases |lines|
  {
    if lines == [] {
      KeptTextSnoc([], x);
      assert [] + [x] == [x] + lines;
    } else {
      var init := lines[..|lines| - 1];
      var last := lines[|lines| - 1];
      ConsSnoc(x, lines);
      KeptTextCons(x, init);
      KeptTextSnoc([x] + init, last);
      KeptTextSnoc(init, last);
      ConcatAssoc(Kept(x), KeptText(init), Kept(last));
    }
  }

  lemma ConcatAssoc(a: string, b: string, c: string)
    ensures a + b + c == a + (b + c)
  {
  }

  lemma SplitLinesOverwritten(a: string, b: string)
    requires forall c :: c in a ==> !IsLineBreak(c)
    requires b != [] && b[0] != '\n'
    ensures SplitLines(a + "\r" + b) == [a + "\r"] + SplitLines(b)
  {
    var s := a + "\r" + b;
    FirstLineOfOverwritten(a, b);
    assert s[..|a| + 1] == a + "\r";
    assert s[|a| + 1..] == b;
  }

  /**
   * A carriage return lets later text stand in for the line it ends: a line
   * "a\r" followed by more text contributes nothing to the result.
   */
  lemma FixedLinesOverwrite(a: string, b: string)
    requires forall c :: c in a ==> !IsLineBreak(c)
    requires b != [] && b[0] != '\n'
    ensures FixedLines(a + "\r" + b) == FixedLines(b)
  {
    var rest := SplitLines(b);
    var lines := [a + "\r"] + rest;
    SplitLinesOverwritten(a, b);
    assert lines[..|lines| - 1] == [a + "\r"] + rest[..|rest| - 1];
    assert lines[|lines| - 1] == rest[|rest| - 1];
    KeptTextCons(a + "\r", rest[..|rest| - 1]);
    var k := KeptText(rest[..|rest| - 1]);
    assert Kept(a + "\r") == "";
    assert "" + k == k;
    assert FixedLines(b) == Some(k + Backspaced(rest[|rest| - 1]));
  }
}
