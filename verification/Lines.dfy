/** Reading a text file line by line: vfs_readline of fs/vfs.c and `trim` of apps/pkg/pkg.c. */
module Lines {
  import opened Types

  // ---- vfs_readline -----------------------------------------------------------------------

  /** Where the line that starts at `pos` ends: behind its newline, at `room` characters, or at the end of the text. */
  function LineEnd(text: string, pos: nat, room: nat): (e: nat)
    requires pos <= |text|
    ensures pos <= e <= |text| && e <= pos + room
    decreases room
  {
    if room == 0 || pos == |text| then pos
    else if text[pos] == '\n' then pos + 1
    else LineEnd(text, pos + 1, room - 1)
  }

  /** The end of a line is the first place behind a newline, as far as room and text reach. */
  lemma {:induction false} LineEndIs(text: string, pos: nat, room: nat, e: nat)
    requires pos <= e <= |text| && e <= pos + room && forall i :: pos <= i < e - 1 ==> text[i] != '\n'
    requires e == pos + room || e == |text| || (pos < e && text[e - 1] == '\n')
    requires e == pos ==> room == 0 || pos == |text|
    ensures LineEnd(text, pos, room) == e
    decreases room
  {
    if pos + 1 < e { LineEndIs(text, pos + 1, room - 1, e); }
    if pos + 1 == e && text[pos] != '\n' { LineEndIs(text, e, room - 1, e); }
  }

  /** vfs_readline with a buffer of `max` characters: copies one line and advances the position; nothing at or
      behind the end of the text, or without room. */
  method ReadLine(text: string, pos: nat, max: nat) returns (line: string, next: nat)
    ensures max == 0 || pos >= |text| ==> line == "" && next == pos
    ensures max > 0 && pos < |text| ==> next == LineEnd(text, pos, max - 1) && line == text[pos..next]
  {
    line, next := [], pos;
    if max == 0 || pos >= |text| { return; }
    while |line| < max - 1 && next < |text|
      invariant pos <= next <= |text| && line == text[pos..next] && |line| <= max - 1
      invariant LineEnd(text, pos, max - 1) == LineEnd(text, next, max - 1 - |line|)
      decreases |text| - next
    {
      var c := text[next];
      next := next + 1;
      line := line + [c];
      if c == '\n' { break; }
    }
  }

  /** A stored line: at most `room` characters, ending in its only newline. */
  predicate IsLine(l: string, room: nat) {
    0 < |l| <= room && l[|l| - 1] == '\n' && '\n' !in l[..|l| - 1]
  }

  function Concat(ls: seq<string>): string {
    if ls == [] then "" else ls[0] + Concat(ls[1..])
  }

  lemma {:induction false} LineEndAtNewline(text: string, pos: nat, room: nat, l: string)
    requires IsLine(l, room) && pos + |l| <= |text| && text[pos..pos + |l|] == l
    ensures LineEnd(text, pos, room) == pos + |l|
    decreases room
  {
    assert text[pos] == l[0];
    if |l| > 1 {
      var t := l[1..];
      assert l[0] in l[..|l| - 1];
      assert t[..|t| - 1] == l[..|l| - 1][1..];
      forall i | 0 <= i < |t| ensures text[pos + 1 + i] == t[i] { assert l[i + 1] == text[pos..pos + |l|][i + 1]; }
      assert text[pos + 1..pos + 1 + |t|] == t;
      LineEndAtNewline(text, pos + 1, room - 1, t);
    }
  }

  lemma {:induction false} ConcatAppend(a: seq<string>, b: seq<string>)
    ensures Concat(a + b) == Concat(a) + Concat(b)
  {
    if a == [] {
      assert a + b == b;
    } else {
      ConcatAppend(a[1..], b);
      HeadAndTail(a, b);
      Regrouped(a[0], Concat(a[1..]), Concat(b));
    }
  }

  /** The lines a vfs_readline loop sees from `pos` on. */
  function LinesFrom(text: string, pos: nat, room: nat): seq<string>
    requires pos <= |text| && room > 0
    decreases |text| - pos
  {
    if pos == |text| then [] else
      var e := LineEnd(text, pos, room);
      [text[pos..e]] + LinesFrom(text, e, room)
  }

  /** Reading back a file made of stored lines yields exactly those lines. */
  lemma {:induction false} ReadBack(text: string, pos: nat, room: nat, ls: seq<string>)
    requires room > 0 && pos <= |text| && text[pos..] == Concat(ls)
    requires forall l :: l in ls ==> IsLine(l, room)
    ensures LinesFrom(text, pos, room) == ls
    decreases |ls|
  {
    hide LineEnd;
    if ls != [] {
      var l := ls[0];
      assert text[pos..][..|l|] == l && text[pos..][|l|..] == Concat(ls[1..]);
      assert text[pos..pos + |l|] == l && text[pos + |l|..] == Concat(ls[1..]);
      LineEndAtNewline(text, pos, room, l);
      ReadBack(text, pos + |l|, room, ls[1..]);
    }
  }

  // ---- trim -------------------------------------------------------------------------------

  predicate Blank(c: char) { c == ' ' || c == '\n' || c == '\r' }

  function TrimEnd(s: string): (r: string)
    ensures r <= s && (r == [] || !Blank(r[|r| - 1]))
    ensures forall i :: |r| <= i < |s| ==> Blank(s[i])
    decreases |s|
  {
    if s != [] && Blank(s[|s| - 1]) then TrimEnd(s[..|s| - 1]) else s
  }

  function TrimStart(s: string): (r: string)
    ensures |r| <= |s| && r == s[|s| - |r|..] && (r == [] || r[0] != ' ')
    ensures forall i :: 0 <= i < |s| - |r| ==> s[i] == ' '
  {
    if s != [] && s[0] == ' ' then TrimStart(s[1..]) else s
  }

  /** What `trim` leaves of a string. */
  function Trim(s: string): string { TrimStart(TrimEnd(s)) }

  /** What is cut is spaces in front and spaces, newlines and carriage returns behind, and all of them. */
  lemma TrimIs(s: string, p: nat, k: nat)
    requires p <= k <= |s| && (forall i :: 0 <= i < p ==> s[i] == ' ')
    requires forall i :: k <= i < |s| ==> s[i] == ' ' || s[i] == '\n' || s[i] == '\r'
    requires p < k ==> s[p] != ' ' && s[k - 1] != ' ' && s[k - 1] != '\n' && s[k - 1] != '\r'
    ensures Trim(s) == s[p..k]
  {
    EndsAt(s, TrimEnd(s), p, k);
    if p < k {
      var e := TrimEnd(s);
      assert e[p] == s[p] && e[p..] == s[p..k];
      StartsAt(e, p);
    }
  }

  lemma EndsAt(s: string, e: string, p: nat, k: nat)
    requires p <= k <= |s| && (forall i :: 0 <= i < p ==> s[i] == ' ') && (forall i :: k <= i < |s| ==> Blank(s[i]))
    requires p < k ==> !Blank(s[k - 1])
    requires e <= s && (e == [] || !Blank(s[|e| - 1])) && forall i :: |e| <= i < |s| ==> Blank(s[i])
    ensures |e| == if p < k then k else 0
  {
  }

  lemma {:induction false} StartsAt(e: string, p: nat)
    requires p < |e| && e[p] != ' ' && forall i :: 0 <= i < p ==> e[i] == ' '
    ensures TrimStart(e) == e[p..]
    decreases p
  {
    if p > 0 {
      StartsAt(e[1..], p - 1);
      assert e[1..][p - 1..] == e[p..];
    }
  }

  lemma TrimmedEnds(s: string)
    ensures var t := Trim(s); t == [] || (t[0] != ' ' && !Blank(t[|t| - 1]))
  {
    var e := TrimEnd(s);
    var t := TrimStart(e);
    if t != [] { assert t[|t| - 1] == e[|e| - 1]; }
  }

  /** Trimming a trimmed line with its newline put back changes nothing. */
  lemma TrimIdempotent(s: string)
    ensures Trim(Trim(s) + "\n") == Trim(s)
  {
    hide TrimEnd, TrimStart;
    var t := Trim(s);
    TrimmedEnds(s);
    TrimEndLine(t);
    TrimStartPlain(t);
  }

  lemma TrimEndLine(t: string)
    requires t == [] || !Blank(t[|t| - 1])
    ensures TrimEnd(t + "\n") == t
  {
    assert (t + "\n")[..|t|] == t;
  }

  lemma TrimStartPlain(t: string)
    requires t == [] || t[0] != ' '
    ensures TrimStart(t) == t
  {
  }

  lemma TrimKeepsLine(l: string, room: nat)
    requires IsLine(l, room)
    ensures IsLine(Trim(l) + "\n", room)
  {
    var e, t := TrimEnd(l), Trim(l);
    assert e == TrimEnd(l[..|l| - 1]);
    assert e == l[..|e|] == l[..|l| - 1][..|e|];
    forall c | c in t ensures c in l[..|l| - 1] { assert c in e; }
    assert (t + "\n")[..|t|] == t;
  }

  /** The first loop of `trim`: trailing blanks become terminators. */
  method CutTail(a: array<char>, n: nat) returns (k: nat)
    requires n < a.Length && a[n] == '\0'
    modifies a
    ensures k <= n && a[..k] == TrimEnd(old(a[..n])) && a[k] == '\0'
  {
    k := n;
    while k > 0 && Blank(a[k - 1])
      invariant k <= n && a[k] == '\0' && a[..k] == old(a[..k])
      invariant TrimEnd(old(a[..k])) == TrimEnd(old(a[..n]))
    {
      assert old(a[..k])[..k - 1] == old(a[..k - 1]);
      a[k - 1] := '\0';
      k := k - 1;
    }
  }

  /** The second loop: the number of leading spaces. */
  method LeadingSpaces(a: array<char>, k: nat) returns (p: nat)
    requires k < a.Length && a[k] == '\0'
    ensures p <= k && a[p..k] == TrimStart(a[..k])
  {
    p := 0;
    while a[p] == ' '
      invariant p <= k && TrimStart(a[p..k]) == TrimStart(a[..k])
      decreases k - p
    {
      assert a[p..k][1..] == a[p + 1..k];
      p := p + 1;
    }
  }

  /** The third loop: the rest of the string moves to the front. */
  method ShiftDown(a: array<char>, p: nat, k: nat)
    requires 0 < p <= k < a.Length && a[k] == '\0' && '\0' !in a[p..k]
    modifies a
    ensures a[..k - p] == old(a[p..k]) && a[k - p] == '\0'
  {
    var i: nat := 0;
    while a[p + i] != '\0'
      invariant p + i <= k && forall j :: 0 <= j < i ==> a[j] == old(a[..])[p + j]
      invariant forall j :: i <= j < a.Length ==> a[j] == old(a[j])
      decreases k - i
    {
      a[i] := a[p + i];
      i := i + 1;
    }
    assert p + i == k;
    a[i] := '\0';
  }

  /** `trim` in place: `a` holds a NUL-terminated string of `n` characters. */
  method TrimBuffer(a: array<char>, n: nat) returns (m: nat)
    requires n < a.Length && a[n] == '\0' && '\0' !in a[..n]
    modifies a
    ensures m <= n && a[..m] == Trim(old(a[..n])) && a[m] == '\0'
  {
    hide TrimStart;
    var k := CutTail(a, n);
    ghost var e := a[..k];
    var p := LeadingSpaces(a, k);
    m := k - p;
    if p != 0 {
      NoNul(old(a[..n]), e, p);
      assert a[p..k] == e[p..];
      ShiftDown(a, p, k);
    }
  }

  lemma NoNul(s: string, e: string, p: nat)
    requires e <= s && '\0' !in s && p <= |e|
    ensures '\0' !in e[p..]
  {
    assert forall c :: c in e[p..] ==> c in e;
  }

  // ---- the name at the head of a database line -----------------------------------------------

  function FirstTab(s: string): (k: nat)
    ensures k <= |s| && '\t' !in s[..k] && (k < |s| ==> s[k] == '\t')
  {
    if s == [] || s[0] == '\t' then 0 else 1 + FirstTab(s[1..])
  }

  /** The trimmed text before the first tab of a line; none when it has no tab. */
  function Key(line: string): Option<string> {
    var t := Trim(line);
    if FirstTab(t) < |t| then Some(t[..FirstTab(t)]) else None
  }

  /** A trimmed line without a tab is headed by nothing. */
  lemma KeyIs(l: string, k: nat)
    requires k <= |Trim(l)| && '\t' !in Trim(l)[..k] && (k < |Trim(l)| ==> Trim(l)[k] == '\t')
    ensures Key(l) == if k < |Trim(l)| then Some(Trim(l)[..k]) else None
  {
    if k < |Trim(l)| {
      FirstTabIs(Trim(l), k);
    } else {
      assert Trim(l)[..k] == Trim(l);
    }
  }

  lemma {:induction false} FirstTabIs(s: string, k: nat)
    requires k < |s| && s[k] == '\t' && '\t' !in s[..k]
    ensures FirstTab(s) == k
  {
    if k > 0 {
      assert s[0] == s[..k][0] && s[1..][..k - 1] == s[..k][1..];
      FirstTabIs(s[1..], k - 1);
    }
  }

  /** A line written for `name` is read back under that name. */
  lemma KeyOfWritten(name: string, rest: string)
    requires '\t' !in name && (name == [] || name[0] != ' ')
    ensures Key(name + "\t" + rest) == Some(name)
  {
    var l := name + "\t" + rest;
    var k := |name|;
    assert l[k] == '\t';
    var e := TrimEnd(l);
    assert k < |e| && e[..k] == name && e[k] == '\t';
    assert Trim(l) == e;
    FirstTabIs(e, k);
  }

  lemma KeyOfTrimmed(l: string)
    ensures Key(Trim(l) + "\n") == Key(l)
  {
    TrimIdempotent(l);
  }
}
