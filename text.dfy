/** The string operations the pipeline uses (`str.lower`, `str.upper`, `str.strip`,
    `str.split`, `re.findall(r"\w+")`, `re.split` on a character class, `in` on
    strings), over ASCII text. */
module Text {
  import opened Seqs

  /** Python whitespace, restricted to ASCII: tab, newline, vertical tab, form feed,
      carriage return, the separators 0x1C-0x1F and space. */
  predicate IsSpace(c: char) {
    ('\t' <= c <= '\r') || ('\U{1C}' <= c <= ' ')
  }

  predicate NotSpace(c: char) {
    !IsSpace(c)
  }

  predicate IsAsciiLetter(c: char) {
    ('a' <= c <= 'z') || ('A' <= c <= 'Z')
  }

  predicate IsDigit(c: char) {
    '0' <= c <= '9'
  }

  /** A regular-expression word character (`\w`): ASCII letters, digits and the
      underscore; every non-ASCII character is taken to be a letter. */
  predicate IsWordChar(c: char) {
    IsAsciiLetter(c) || IsDigit(c) || c == '_' || c >= '\U{80}'
  }

  function LowerChar(c: char): char {
    if 'A' <= c <= 'Z' then (c as int - 'A' as int + 'a' as int) as char else c
  }

  function UpperChar(c: char): char {
    if 'a' <= c <= 'z' then (c as int - 'a' as int + 'A' as int) as char else c
  }

  function Lower(s: string): (r: string)
    ensures |r| == |s|
    ensures forall i :: 0 <= i < |s| ==> r[i] == LowerChar(s[i])
  {
    seq(|s|, i requires 0 <= i < |s| => LowerChar(s[i]))
  }

  function Upper(s: string): (r: string)
    ensures |r| == |s|
    ensures forall i :: 0 <= i < |s| ==> r[i] == UpperChar(s[i])
  {
    seq(|s|, i requires 0 <= i < |s| => UpperChar(s[i]))
  }

  predicate IsLowerCase(s: string) {
    forall i :: 0 <= i < |s| ==> !('A' <= s[i] <= 'Z')
  }

  lemma LowerIsLowerCase(s: string)
    ensures IsLowerCase(Lower(s))
    ensures IsLowerCase(s) ==> Lower(s) == s
  {
  }

  predicate Blank(s: string) {
    forall i :: 0 <= i < |s| ==> IsSpace(s[i])
  }

  predicate NonEmptyText(s: string) {
    s != ""
  }

  /** No whitespace at either end. */
  predicate Trimmed(s: string) {
    s == [] || (NotSpace(s[0]) && NotSpace(s[|s| - 1]))
  }

  function TrimStart(s: string): (r: string)
    ensures |r| <= |s| && r == s[|s| - |r|..]
    ensures r == [] || NotSpace(r[0])
    ensures forall i :: 0 <= i < |s| - |r| ==> IsSpace(s[i])
  {
    if s != [] && IsSpace(s[0]) then TrimStart(s[1..]) else s
  }

  function TrimEnd(s: string): (r: string)
    ensures |r| <= |s| && r == s[..|r|]
    ensures r == [] || NotSpace(r[|r| - 1])
    ensures forall i :: |r| <= i < |s| ==> IsSpace(s[i])
  {
    if s != [] && IsSpace(s[|s| - 1]) then TrimEnd(s[..|s| - 1]) else s
  }

  /** `s.strip()`: the result has no whitespace at either end, is empty exactly when
      `s` is all whitespace, and leaves an already trimmed string alone. */
  function Strip(s: string): (r: string)
    ensures Trimmed(r)
    ensures r == [] <==> Blank(s)
    ensures Trimmed(s) ==> r == s
  {
    var t := TrimStart(s);
    var r := TrimEnd(t);
    assert r != [] ==> r[0] == t[0];
    assert t != [] ==> !Blank(s) by {
      if t != [] { assert s[|s| - |t|] == t[0]; }
    }
    assert r == [] ==> t == [] by {
      if t != [] { assert NotSpace(t[0]); }
    }
    r
  }

  /** `[p.strip() for p in pieces]`. */
  function StripAll(pieces: seq<string>): (r: seq<string>)
    ensures |r| == |pieces|
    ensures forall i :: 0 <= i < |pieces| ==> r[i] == Strip(pieces[i])
  {
    seq(|pieces|, i requires 0 <= i < |pieces| => Strip(pieces[i]))
  }

  /** The maximal runs of characters satisfying `keep`, left to right. */
  function Runs(s: string, keep: char -> bool): (r: seq<string>)
    ensures forall w :: w in r ==> w != [] && forall c :: c in w ==> keep(c)
    ensures forall w, c :: w in r && c in w ==> c in s
    decreases |s|
  {
    if s == [] then []
    else if !keep(s[0]) then Runs(s[1..], keep)
    else
      var n := LeadingCount(s, keep);
      [s[..n]] + Runs(s[n..], keep)
  }

  /** `s.split()`: runs of non-whitespace. */
  function Words(s: string): seq<string> {
    Runs(s, NotSpace)
  }

  /** `re.findall(r"\w+", s)`. */
  function WordTokens(s: string): seq<string> {
    Runs(s, IsWordChar)
  }

  lemma {:induction false} RunsSkip(t: string, u: string, keep: char -> bool)
    requires forall c :: c in t ==> !keep(c)
    ensures Runs(t + u, keep) == Runs(u, keep)
    decreases |t|
  {
    if t != [] {
      assert (t + u)[1..] == t[1..] + u;
      RunsSkip(t[1..], u, keep);
    } else {
      assert t + u == u;
    }
  }

  lemma {:induction false} LeadingRunOfRun(w: string, u: string, keep: char -> bool)
    requires forall c :: c in w ==> keep(c)
    requires u == [] || !keep(u[0])
    ensures LeadingCount(w + u, keep) == |w|
    decreases |w|
  {
    if w == [] {
      assert w + u == u;
    } else {
      assert (w + u)[0] == w[0] && w[0] in w;
      assert (w + u)[1..] == w[1..] + u;
      LeadingRunOfRun(w[1..], u, keep);
    }
  }

  lemma RunsLead(w: string, u: string, keep: char -> bool)
    requires w != [] && forall c :: c in w ==> keep(c)
    requires u == [] || !keep(u[0])
    ensures Runs(w + u, keep) == [w] + Runs(u, keep)
  {
    var s := w + u;
    LeadingRunOfRun(w, u, keep);
    assert s[0] == w[0] && w[0] in w;
    assert s[..|w|] == w && s[|w|..] == u;
  }

  /** Splitting a `sep`-joined list of runs gives the list back. */
  lemma {:induction false} RunsOfJoin(ws: seq<string>, sep: string, keep: char -> bool)
    requires sep != [] && forall c :: c in sep ==> !keep(c)
    requires forall w :: w in ws ==> w != [] && forall c :: c in w ==> keep(c)
    ensures Runs(Join(ws, sep), keep) == ws
    decreases |ws|
  {
    if ws == [] {
    } else if |ws| == 1 {
      assert ws[0] in ws;
      RunsLead(ws[0], [], keep);
      assert ws[0] + [] == ws[0];
    } else {
      var w := ws[0];
      assert w in ws;
      var rest := Join(ws[1..], sep);
      assert Join(ws, sep) == w + (sep + rest);
      assert sep[0] in sep;
      RunsLead(w, sep + rest, keep);
      RunsSkip(sep, rest, keep);
      assert forall v :: v in ws[1..] ==> v in ws;
      RunsOfJoin(ws[1..], sep, keep);
      assert ws == [w] + ws[1..];
    }
  }

  /** `re.split` on a one-character class, or `str.split(sep)` for a one-character
      separator: the pieces between separators, empty pieces included. */
  function SplitBy(s: string, seps: set<char>): (r: seq<string>)
    ensures |r| >= 1
    ensures forall p :: p in r ==> forall c :: c in p ==> c !in seps
  {
    if s == [] then [""]
    else
      var rest := SplitBy(s[1..], seps);
      if s[0] in seps then [""] + rest
      else
        assert rest[0] in rest;
        assert forall p :: p in rest[1..] ==> p in rest;
        [[s[0]] + rest[0]] + rest[1..]
  }

  lemma {:induction false} SplitByNoSeparator(p: string, seps: set<char>)
    requires forall c :: c in p ==> c !in seps
    ensures SplitBy(p, seps) == [p]
    decreases |p|
  {
    if p != [] {
      SplitByNoSeparator(p[1..], seps);
      assert [p[0]] + p[1..] == p;
    }
  }

  /** A separator-free piece followed by a separator is the first piece. */
  lemma {:induction false} SplitByAfterPiece(p: string, c: char, t: string, seps: set<char>)
    requires c in seps && forall x :: x in p ==> x !in seps
    ensures SplitBy(p + [c] + t, seps) == [p] + SplitBy(t, seps)
    decreases |p|
  {
    if p == [] {
      assert p + [c] + t == [c] + t;
      assert ([c] + t)[1..] == t;
    } else {
      assert (p + [c] + t)[1..] == p[1..] + [c] + t;
      assert p[0] in p;
      SplitByAfterPiece(p[1..], c, t, seps);
      assert [p[0]] + p[1..] == p;
    }
  }

  /** Splitting a `c`-joined list whose pieces contain no `c` gives the list back. */
  lemma {:induction false} SplitByOfJoin(parts: seq<string>, c: char)
    requires parts != []
    requires forall p :: p in parts ==> c !in p
    ensures SplitBy(Join(parts, [c]), {c}) == parts
    decreases |parts|
  {
    assert parts[0] in parts;
    if |parts| == 1 {
      SplitByNoSeparator(parts[0], {c});
    } else {
      var rest := Join(parts[1..], [c]);
      assert Join(parts, [c]) == parts[0] + [c] + rest;
      SplitByAfterPiece(parts[0], c, rest, {c});
      SplitByOfJoin(parts[1..], c);
      assert parts == [parts[0]] + parts[1..];
    }
  }

  /** Python's substring test `t in s`. */
  function Contains(s: string, t: string): bool
    decreases |s|
  {
    t <= s || (s != [] && Contains(s[1..], t))
  }

  lemma {:induction false} ContainsAt(s: string, t: string, i: nat)
    requires i + |t| <= |s| && s[i..i + |t|] == t
    ensures Contains(s, t)
    decreases i
  {
    if i > 0 {
      assert s[1..][i - 1..i - 1 + |t|] == s[i..i + |t|];
      ContainsAt(s[1..], t, i - 1);
    }
  }

  /** Every character of `s.strip()` comes from `s`. */
  lemma StripChars(s: string)
    ensures forall c :: c in Strip(s) ==> c in s
  {
    var t := TrimStart(s);
    var r := Strip(s);
    assert r == TrimEnd(t);
    forall c | c in r ensures c in s {
      var i :| 0 <= i < |r| && r[i] == c;
      assert t[i] == c;
      assert s[|s| - |t| + i] == c;
    }
  }

  /** `t in a + t + b`. */
  lemma ContainsInfix(a: string, t: string, b: string)
    ensures Contains(a + t + b, t)
  {
    var s := a + t + b;
    assert s[|a|..|a| + |t|] == t;
    ContainsAt(s, t, |a|);
  }
}
