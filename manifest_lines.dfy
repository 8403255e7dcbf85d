/**
 * Splitting the serialized manifest into lines: the text is cut at every
 * `\n` and `\r`, and empty pieces are dropped.
 */
module ManifestLines {

  predicate IsTerminator(c: char) {
    c == '\n' || c == '\r'
  }

  predicate NoTerminator(s: string) {
    forall j :: 0 <= j < |s| ==> !IsTerminator(s[j])
  }

  /** A line as the splitter emits it: non-empty, without `\n` or `\r`. */
  predicate IsLine(line: string) {
    line != [] && NoTerminator(line)
  }

  /** The length of the longest prefix of `s` that holds no line terminator. */
  function RunLength(s: string): (k: nat)
    ensures k <= |s|
  {
    if s == [] || IsTerminator(s[0]) then 0 else 1 + RunLength(s[1..])
  }

  /**
   * The lines of `s`: its maximal non-empty runs of characters without a
   * line terminator, in order.
   */
  function Lines(s: string): seq<string>
    decreases |s|
  {
    if s == [] then []
    else if IsTerminator(s[0]) then Lines(s[1..])
    else
      var k := RunLength(s);
      [s[..k]] + Lines(s[k..])
  }

  /** `s` with every line terminator removed. */
  function StripTerminators(s: string): string {
    if s == [] then []
    else if IsTerminator(s[0]) then StripTerminators(s[1..])
    else [s[0]] + StripTerminators(s[1..])
  }

  function Concat(lines: seq<string>): string {
    if lines == [] then [] else lines[0] + Concat(lines[1..])
  }

  /**
   * The run is maximal: it holds no terminator and is followed by a
   * terminator or by the end of the text; it is empty only before a
   * terminator or at the end.
   */
  lemma {:induction false} RunLengthSpec(s: string)
    ensures NoTerminator(s[..RunLength(s)])
    ensures RunLength(s) == |s| || IsTerminator(s[RunLength(s)])
    ensures s != [] && !IsTerminator(s[0]) ==> RunLength(s) > 0
  {
    if s != [] && !IsTerminator(s[0]) {
      RunLengthSpec(s[1..]);
      var k := RunLength(s[1..]);
      assert s[..k + 1] == [s[0]] + s[1..][..k];
      assert k < |s[1..]| ==> s[k + 1] == s[1..][k];
    }
  }

  /** The two conditions of RunLengthSpec determine the run's length. */
  lemma {:induction false} RunLengthIs(s: string, k: nat)
    requires k <= |s| && NoTerminator(s[..k]) && (k == |s| || IsTerminator(s[k]))
    ensures RunLength(s) == k
  {
    if k > 0 {
      assert s[0] == s[..k][0];
      assert s[1..][..k - 1] == s[..k][1..];
      assert k < |s| ==> s[1..][k - 1] == s[k];
      RunLengthIs(s[1..], k - 1);
    }
  }

  lemma {:induction false} StripRun(s: string, k: nat)
    requires k <= |s| && NoTerminator(s[..k])
    ensures StripTerminators(s) == s[..k] + StripTerminators(s[k..])
  {
    if k > 0 {
      assert s[0] == s[..k][0];
      assert s[1..][..k - 1] == s[..k][1..];
      StripRun(s[1..], k - 1);
      assert s[1..][k - 1..] == s[k..];
      assert s[..k] == [s[0]] + s[1..][..k - 1];
    }
  }

  /**
   * Every line is non-empty and free of terminators, and the lines joined
   * together give back the text without its terminators.
   */
  lemma {:induction false} LinesSound(s: string)
    ensures forall i :: 0 <= i < |Lines(s)| ==> IsLine(Lines(s)[i])
    ensures Concat(Lines(s)) == StripTerminators(s)
    decreases |s|
  {
    if s != [] {
      if IsTerminator(s[0]) {
        LinesSound(s[1..]);
      } else {
        var k := RunLength(s);
        RunLengthSpec(s);
        LinesSound(s[k..]);
        StripRun(s, k);
        assert Lines(s)[1..] == Lines(s[k..]);
      }
    }
  }

  /** A terminator with an empty buffer starts no line. */
  lemma LinesSkip(c: char, rest: string)
    requires IsTerminator(c)
    ensures Lines([c] + rest) == Lines(rest)
  {
    assert ([c] + rest)[1..] == rest;
  }

  /** A non-empty buffer ended by a terminator is one complete line. */
  lemma LinesAfterRun(pending: string, c: char, rest: string)
    requires IsLine(pending) && IsTerminator(c)
    ensures Lines(pending + [c] + rest) == [pending] + Lines(rest)
  {
    var t := pending + [c] + rest;
    assert t[..|pending|] == pending;
    assert t[|pending|] == c;
    RunLengthIs(t, |pending|);
    assert t[0] == pending[0];
    assert t[|pending|..] == [c] + rest;
    LinesSkip(c, rest);
  }

  /** A non-empty buffer left at the end of the text is the last line. */
  lemma LinesOfLine(pending: string)
    requires IsLine(pending)
    ensures Lines(pending) == [pending]
  {
    assert pending[..|pending|] == pending;
    RunLengthIs(pending, |pending|);
    assert pending[|pending|..] == [];
  }

  /**
   * Two lines separated by a run of terminators and followed by one: the
   * blank lines between them are dropped.
   */
  lemma TwoLines(text: string, a: string, b: string, t1: char, t2: char, t3: char, t4: char, t5: char)
    requires IsLine(a) && IsLine(b)
    requires IsTerminator(t1) && IsTerminator(t2) && IsTerminator(t3) && IsTerminator(t4) && IsTerminator(t5)
    requires text == a + [t1] + ([t2] + ([t3] + ([t4] + (b + [t5] + []))))
    ensures Lines(text) == [a, b]
  {
    var b5 := b + [t5] + [];
    LinesAfterRun(b, t5, []);
    LinesSkip(t4, b5);
    LinesSkip(t3, [t4] + b5);
    LinesSkip(t2, [t3] + ([t4] + b5));
    LinesAfterRun(a, t1, [t2] + ([t3] + ([t4] + b5)));
  }

  /** A manifest text with a blank line between its two attributes. */
  lemma ExampleLines(text: string)
    requires text == "A: 1\r\n\r\nB: 2\n"
    ensures Lines(text) == ["A: 1", "B: 2"]
  {
    assert text == "A: 1" + ['\r'] + (['\n'] + (['\r'] + (['\n'] + ("B: 2" + ['\n'] + []))));
    TwoLines(text, "A: 1", "B: 2", '\r', '\n', '\r', '\n', '\n');
  }

  /**
   * The loop invariant of ReadLines after i characters: the buffer holds no
   * terminator, and the lines emitted so far followed by the lines of the
   * buffer and the unread text are the lines of the whole text.
   */
  predicate Splitting(s: string, i: nat, result: seq<string>, sb: string)
    requires i <= |s|
  {
    NoTerminator(sb) && result + Lines(sb + s[i..]) == Lines(s)
  }

  /** A character that is not a terminator joins the buffer. */
  lemma ExtendPending(s: string, i: nat, result: seq<string>, sb: string)
    requires i < |s| && Splitting(s, i, result, sb) && !IsTerminator(s[i])
    ensures Splitting(s, i + 1, result, sb + [s[i]])
  {
    assert sb + s[i..] == (sb + [s[i]]) + s[i + 1..] by {
      assert s[i..] == [s[i]] + s[i + 1..];
    }
  }

  /** A terminator emits a non-empty buffer as one line. */
  lemma EmitPending(s: string, i: nat, result: seq<string>, sb: string)
    requires i < |s| && Splitting(s, i, result, sb) && IsTerminator(s[i]) && sb != []
    ensures Splitting(s, i + 1, result + [sb], "")
  {
    assert sb + s[i..] == sb + [s[i]] + s[i + 1..];
    LinesAfterRun(sb, s[i], s[i + 1..]);
    assert "" + s[i + 1..] == s[i + 1..];
  }

  /** A terminator with an empty buffer emits nothing. */
  lemma SkipTerminator(s: string, i: nat, result: seq<string>)
    requires i < |s| && Splitting(s, i, result, "") && IsTerminator(s[i])
    ensures Splitting(s, i + 1, result, "")
  {
    assert s[i..] == [s[i]] + s[i + 1..];
    assert "" + s[i..] == s[i..];
    assert "" + s[i + 1..] == s[i + 1..];
    LinesSkip(s[i], s[i + 1..]);
  }

  /** At the end of the text a non-empty buffer is emitted as the last line. */
  lemma FinishLines(s: string, result: seq<string>, sb: string)
    requires Splitting(s, |s|, result, sb)
    ensures (if sb != [] then result + [sb] else result) == Lines(s)
  {
    assert sb + s[|s|..] == sb;
    if sb != [] {
      LinesOfLine(sb);
    }
  }

  /**
   * The character loop of `readManifest`: walk the text, collecting non-terminators into a buffer
   * and emitting the buffer, when non-empty, at each terminator and at the end.
   */
  method ReadLines(s: string) returns (result: seq<string>)
    ensures result == Lines(s)
    ensures forall i :: 0 <= i < |result| ==> IsLine(result[i])
    ensures Concat(result) == StripTerminators(s)
  {
    result := [];
    var sb := "";
    assert sb + s[0..] == s;
    for i := 0 to |s|
      invariant Splitting(s, i, result, sb)
    {
      var c := s[i];
      if !IsTerminator(c) {
        ExtendPending(s, i, result, sb);
        sb := sb + [c];
      } else if |sb| > 0 {
        EmitPending(s, i, result, sb);
        result := result + [sb];
        sb := "";
      } else {
        SkipTerminator(s, i, result);
      }
    }
    FinishLines(s, result, sb);
    if |sb| > 0 {
      result := result + [sb];
    }
    LinesSound(s);
  }
}
