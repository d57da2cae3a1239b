/** Searching in the text of an ebuild: substrings, quotes and whole lines. */
module EbuildText {
  import opened Wrappers

  predicate At(s: string, m: string, i: nat) {
    i + |m| <= |s| && forall k {:trigger m[k]} :: 0 <= k < |m| ==> s[i+k] == m[k]
  }

  /** The first place of `m` at or after `from`. */
  function First(s: string, m: string, from: nat): (r: Option<nat>)
    requires from <= |s|
    ensures r.Some? ==> from <= r.value && At(s, m, r.value) && forall j: nat :: from <= j < r.value ==> !At(s, m, j)
    ensures r.None? ==> forall j: nat :: from <= j ==> !At(s, m, j)
    decreases |s| - from
  {
    if At(s, m, from) then Some(from)
    else if from == |s| then None
    else First(s, m, from + 1)
  }

  lemma FirstIs(s: string, m: string, i: nat)
    requires At(s, m, i) && forall j: nat :: j < i ==> !At(s, m, j)
    ensures First(s, m, 0) == Some(i)
  {
  }

  lemma FirstMeans(s: string, m: string, i: nat)
    ensures First(s, m, 0) == Some(i) <==> At(s, m, i) && forall j: nat :: j < i ==> !At(s, m, j)
  {
  }

  lemma FirstFits(s: string, m: string)
    ensures First(s, m, 0).Some? ==> First(s, m, 0).value + |m| <= |s|
  {
  }

  /** The first quote at or after `from`. */
  function Quote(s: string, from: nat): (r: Option<nat>)
    requires from <= |s|
    ensures r.Some? ==> from <= r.value < |s| && s[r.value] == '"' && forall j :: from <= j < r.value ==> s[j] != '"'
    ensures r.None? ==> forall j :: from <= j < |s| ==> s[j] != '"'
    decreases |s| - from
  {
    if from == |s| then None
    else if s[from] == '"' then Some(from)
    else Quote(s, from + 1)
  }

  predicate NoQuote(s: string) {
    forall i :: 0 <= i < |s| ==> s[i] != '"'
  }

  /** An occurrence up to which nothing changes stays the first one. */
  lemma FirstStable(s: string, t: string, m: string, i: nat)
    requires First(s, m, 0) == Some(i)
    requires i + |m| <= |t| && forall j :: 0 <= j < i + |m| ==> t[j] == s[j]
    ensures First(t, m, 0) == Some(i)
  {
    hide First;
    forall j: nat | j < i
      ensures !At(t, m, j)
    {
      assert !At(s, m, j);
      var k :| 0 <= k < |m| && s[j+k] != m[k];
    }
    FirstIs(t, m, i);
  }

  // ---------- lines ----------

  predicate White(c: char) {
    || '\U{0009}' <= c <= '\U{000D}' || c == ' ' || c == '\U{0085}' || c == '\U{00A0}' || c == '\U{1680}'
    || '\U{2000}' <= c <= '\U{200A}' || c == '\U{2028}' || c == '\U{2029}' || c == '\U{202F}' || c == '\U{205F}'
    || c == '\U{3000}'
  }

  function Trim(s: string): string {
    if s != "" && White(s[0]) then Trim(s[1..])
    else if s != "" && White(s[|s|-1]) then Trim(s[..|s|-1])
    else s
  }

  /** The length of the first line, its line break included. */
  function LineLength(s: string): (n: nat)
    ensures n <= |s| && (s != "" ==> n > 0)
  {
    if s == "" then 0 else if s[0] == '\n' then 1 else 1 + LineLength(s[1..])
  }

  function Shift(o: Option<nat>, n: nat): Option<nat> {
    match o
    case Some(k) => Some(n + k)
    case None => None
  }

  /** The offset of the first line that is `line` once trimmed. */
  function LineAt(s: string, line: string): (r: Option<nat>)
    ensures r.Some? ==> r.value < |s| && Trim(s[r.value..][..LineLength(s[r.value..])]) == line
    decreases |s|
  {
    if s == "" then None
    else
      var n := LineLength(s);
      if Trim(s[..n]) == line then Some(0)
      else
        assert forall k :: 0 <= k <= |s| - n ==> s[n..][k..] == s[n+k..];
        Shift(LineAt(s[n..], line), n)
  }

  predicate WholeLines(s: string) {
    s == "" || s[|s|-1] == '\n'
  }

  lemma {:induction false} LineLengthConcat(b: string, c: string)
    requires b != "" && WholeLines(b)
    ensures LineLength(b + c) == LineLength(b) && WholeLines(b[LineLength(b)..])
  {
    if b[0] != '\n' {
      LineLengthConcat(b[1..], c);
      assert (b + c)[1..] == b[1..] + c;
      assert b[1..][LineLength(b[1..])..] == b[LineLength(b)..];
    }
  }

  /** Searching whole lines and then the rest. */
  lemma {:induction false} LineAtConcat(b: string, c: string, line: string)
    requires WholeLines(b)
    ensures LineAt(b + c, line) == if LineAt(b, line).Some? then LineAt(b, line) else Shift(LineAt(c, line), |b|)
    decreases |b|
  {
    if b == "" {
      assert b + c == c;
    } else {
      LineLengthConcat(b, c);
      var n := LineLength(b);
      assert (b + c)[..n] == b[..n];
      assert (b + c)[n..] == b[n..] + c;
      hide *;
      LineAtConcat(b[n..], c, line);
      LineAtStep(b, line);
      LineAtStep(b + c, line);
      assert |b| == n + |b[n..]|;
      ShiftTwice(LineAt(c, line), |b[n..]|, n);
    }
  }

  lemma ShiftTwice(o: Option<nat>, a: nat, b: nat)
    ensures Shift(Shift(o, a), b) == Shift(o, a + b)
  {
  }

  lemma LineAtStep(s: string, line: string)
    requires s != ""
    ensures var n := LineLength(s);
            0 < n <= |s|
            && LineAt(s, line) == if Trim(s[..n]) == line then Some(0) else Shift(LineAt(s[n..], line), n)
    ensures LineAt(s, line).Some? && Trim(s[..LineLength(s)]) != line ==> LineAt(s[LineLength(s)..], line).Some?
  {
  }

  /** The line found is the first one of what follows it. */
  lemma {:induction false} LineAtFound(s: string, line: string)
    requires LineAt(s, line).Some?
    ensures LineAt(s[LineAt(s, line).value..], line) == Some(0)
    decreases |s|
  {
  }

  /** Walks the lines after `from`, keeping the position of the current one. */
  method FindLine(hay: string, from: nat, line: string) returns (r: Option<nat>)
    requires from <= |hay|
    ensures r == Shift(LineAt(hay[from..], line), from)
  {
    hide Trim, LineLength, LineAt;
    var pos, rest := from, hay[from..];
    while rest != ""
      invariant from <= pos <= |hay| && rest == hay[pos..]
      invariant LineAt(hay[from..], line) == Shift(LineAt(rest, line), pos - from)
      decreases |rest|
    {
      var n := LineLength(rest);
      LineAtStep(rest, line);
      if Trim(rest[..n]) == line {
        return Some(pos);
      }
      ShiftTwice(LineAt(rest[n..], line), n, pos - from);
      assert hay[pos..][n..] == hay[pos+n..];
      pos, rest := pos + n, rest[n..];
    }
    NoLines(line);
    return None;
  }

  lemma NoLines(line: string)
    ensures LineAt("", line) == None
  {
  }

  /** The line found is the wanted one once trimmed. */
  lemma LineAtFinds(s: string, line: string)
    ensures var r := LineAt(s, line);
            r.Some? ==> r.value < |s| && Trim(s[r.value..][..LineLength(s[r.value..])]) == line
                        && LineLength(s[r.value..]) > 0
  {
  }

  /** A line that does not reach the end of the text ends with its line break. */
  lemma {:induction false} LineEnds(s: string)
    ensures LineLength(s) < |s| ==> WholeLines(s[..LineLength(s)])
  {
    if s != "" && s[0] != '\n' {
      LineEnds(s[1..]);
      var n := LineLength(s[1..]);
      assert n > 0 ==> s[..n+1][n] == s[1..][..n][n-1];
      assert |s| > 1 ==> n > 0;
    }
  }

  /** A line that is a lone bracket once trimmed: white space up to the bracket, and no quote. */
  lemma {:induction false} BracketAt(s: string) returns (w: nat)
    requires Trim(s) == ")"
    ensures w < |s| && s[w] == ')' && forall k :: 0 <= k < w ==> White(s[k])
    decreases |s|
  {
    if White(s[0]) {
      w := BracketAt(s[1..]);
      assert forall k :: 1 <= k < |s| ==> s[k] == s[1..][k-1];
      w := w + 1;
    } else if White(s[|s|-1]) {
      w := BracketAt(s[..|s|-1]);
    } else {
      w := 0;
    }
  }

  lemma {:induction false} BracketLine(s: string)
    requires Trim(s) == ")"
    ensures NoQuote(s)
    decreases |s|
  {
    if White(s[0]) {
      BracketLine(s[1..]);
      assert forall k :: 1 <= k < |s| ==> s[k] == s[1..][k-1];
    } else if White(s[|s|-1]) {
      BracketLine(s[..|s|-1]);
      assert forall k :: 0 <= k < |s| - 1 ==> s[k] == s[..|s|-1][k];
    }
  }

  // ---------- what trimming and lines come to ----------

  predicate AllWhite(s: string) {
    forall i :: 0 <= i < |s| ==> White(s[i])
  }

  /** White space around a text that neither starts nor ends with it is what trimming takes away. */
  lemma {:induction false} TrimPadded(a: string, m: string, b: string)
    requires AllWhite(a) && AllWhite(b) && (m != "" ==> !White(m[0]) && !White(m[|m|-1]))
    ensures Trim(a + m + b) == m
    decreases |a| + |b|
  {
    var s := a + m + b;
    if a != "" {
      assert s[0] == a[0] && s[1..] == a[1..] + m + b;
      TrimPadded(a[1..], m, b);
    } else if b != "" {
      var front := b[..|b|-1];
      assert s[|s|-1] == b[|b|-1] && s[..|s|-1] == a + m + front;
      if m == "" {
        assert s[0] == b[0] && s[1..] == a + m + b[1..];
        TrimPadded(a, m, b[1..]);
      } else {
        assert s[0] == m[0];
        TrimPadded(a, m, front);
      }
    } else {
      assert s == m;
    }
  }

  /** Among ASCII characters, white space is the blank and tab to carriage return. */
  lemma WhiteAscii(c: char)
    requires c < '\U{0080}'
    ensures White(c) <==> c in " \t\n\r\U{000B}\U{000C}"
  {
  }

  predicate PaddedBy(s: string, a: string, m: string, b: string) {
    s == a + m + b && AllWhite(a) && AllWhite(b)
  }

  /** The text is `m` with white space around it. */
  ghost predicate Padded(s: string, m: string) {
    exists a, b :: PaddedBy(s, a, m, b)
  }

  lemma {:induction false} TrimSplits(s: string) returns (a: string, b: string)
    ensures PaddedBy(s, a, Trim(s), b)
    decreases |s|
  {
    a, b := "", "";
    if s != "" && White(s[0]) {
      a, b := TrimSplits(s[1..]);
      a := [s[0]] + a;
      assert s == [s[0]] + s[1..];
    } else if s != "" && White(s[|s|-1]) {
      a, b := TrimSplits(s[..|s|-1]);
      b := b + [s[|s|-1]];
      assert s == s[..|s|-1] + [s[|s|-1]];
    }
  }

  /** Trimming gives a bracket exactly if the text is one with white space around it. */
  lemma TrimsToBracket(s: string)
    ensures Trim(s) == ")" <==> Padded(s, ")")
  {
    hide Trim;
    var a, b := TrimSplits(s);
    if Padded(s, ")") {
      var c, d :| PaddedBy(s, c, ")", d);
      TrimPadded(c, ")", d);
    }
  }

  predicate NoBreak(s: string) {
    forall i :: 0 <= i < |s| ==> s[i] != '\n'
  }

  lemma {:induction false} LineLengthIs(line: string, rest: string)
    requires NoBreak(line)
    ensures LineLength(line + "\n" + rest) == |line| + 1
  {
    var s := line + "\n" + rest;
    if line != "" {
      assert s[0] == line[0] && s[1..] == line[1..] + "\n" + rest;
      LineLengthIs(line[1..], rest);
    }
  }

  /** The text from `i` up to `j` is a line of `s`, its line break included. */
  predicate IsLine(s: string, i: nat, j: nat) {
    && i < j <= |s| && (i == 0 || s[i-1] == '\n') && s[j-1] == '\n' && NoBreak(s[i..j-1])
  }

  /** No line of `s` is a bracket with white space around it. */
  ghost predicate NeverCloses(s: string) {
    forall i: nat, j: nat :: IsLine(s, i, j) ==> !Padded(s[i..j], ")")
  }

  lemma {:induction false} FirstLine(s: string)
    requires s != "" && WholeLines(s)
    ensures IsLine(s, 0, LineLength(s)) && WholeLines(s[LineLength(s)..])
  {
    if s[0] != '\n' {
      FirstLine(s[1..]);
      var n := LineLength(s[1..]);
      assert s[0..n] == [s[0]] + s[1..][0..n-1];
      assert s[n+1..] == s[1..][n..];
    }
  }

  /** In whole lines none of which closes the list no closing line is found. */
  lemma {:induction false} NoneCloses(s: string)
    requires WholeLines(s) && NeverCloses(s)
    ensures LineAt(s, ")") == None
    decreases |s|
  {
    hide Trim, LineLength, WholeLines, Padded, LineAt;
    if s == "" {
      NoLines(")");
    } else {
      var n := LineLength(s);
      FirstLine(s);
      assert s[0..n] == s[..n];
      TrimsToBracket(s[..n]);
      LineAtStep(s, ")");
      RestCloses(s, n);
      NoneCloses(s[n..]);
    }
  }

  lemma RestCloses(s: string, n: nat)
    requires NeverCloses(s) && IsLine(s, 0, n)
    ensures NeverCloses(s[n..])
  {
    forall i: nat, j: nat | IsLine(s[n..], i, j)
      ensures !Padded(s[n..][i..j], ")")
    {
      assert s[n..][i..j] == s[n+i..n+j] && s[n..][i..j-1] == s[n+i..n+j-1];
      assert IsLine(s, n + i, n + j);
    }
  }

  /** Behind whole lines that do not close the list, a line with a lone bracket is where it closes. */
  lemma ClosesHere(body: string, a: string, b: string, rest: string)
    requires WholeLines(body) && NeverCloses(body) && AllWhite(a) && AllWhite(b) && NoBreak(a) && NoBreak(b)
    ensures LineAt(body + (a + ")" + b + "\n" + rest), ")") == Some(|body|)
  {
    hide Trim, LineLength, LineAt, WholeLines, NeverCloses;
    var line := a + ")" + b;
    var tail := line + "\n" + rest;
    NoneCloses(body);
    LineAtConcat(body, tail, ")");
    LineLengthIs(line, rest);
    LineAtStep(tail, ")");
    assert tail[..|line|+1] == a + ")" + (b + "\n");
    TrimPadded(a, ")", b + "\n");
    assert tail == a + ")" + b + "\n" + rest;
  }
}
