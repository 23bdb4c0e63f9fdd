/**
 * The co-author list of a profile or a research submission is typed as one
 * comma-separated string and stored as
 * `raw ? raw.split(',').map(n => n.trim()).filter(Boolean) : []`.
 * This module gives each piece of that expression its JavaScript meaning.
 */
module CoAuthors {

  /** The characters `String.prototype.trim` removes: WhiteSpace and LineTerminator of ECMAScript. */
  predicate IsJsSpace(c: char)
  {
    c == '\t' || c == '\n' || c == '\U{B}' || c == '\U{C}' || c == '\r' || c == ' ' ||
    c == '\U{A0}' || c == '\U{1680}' || ('\U{2000}' <= c <= '\U{200A}') ||
    c == '\U{2028}' || c == '\U{2029}' || c == '\U{202F}' || c == '\U{205F}' ||
    c == '\U{3000}' || c == '\U{FEFF}'
  }

  /** Neither end of `s` is a space. */
  predicate IsTrimmed(s: string)
  {
    s == [] || (!IsJsSpace(s[0]) && !IsJsSpace(s[|s| - 1]))
  }

  /** Every character of `s` is a space. */
  predicate AllSpace(s: string)
  {
    forall i :: 0 <= i < |s| ==> IsJsSpace(s[i])
  }

  /** `s` with its longest all-space prefix removed; `TrimStartSpec` says so. */
  function TrimStart(s: string): (r: string)
    ensures |r| <= |s|
  {
    if |s| > 0 && IsJsSpace(s[0]) then TrimStart(s[1..]) else s
  }

  /** `TrimStart` removes a prefix of spaces, and the result does not start with a space. */
  lemma {:induction false} TrimStartSpec(s: string)
    ensures var r := TrimStart(s);
            && r == s[|s| - |r|..]
            && (r == [] || !IsJsSpace(r[0]))
            && AllSpace(s[..|s| - |r|])
  {
    if |s| > 0 && IsJsSpace(s[0]) {
      var r := TrimStart(s[1..]);
      TrimStartSpec(s[1..]);
      assert s[|s| - |r|..] == s[1..][|s| - 1 - |r|..];
      var dropped, rest := s[..|s| - |r|], s[1..][..|s| - 1 - |r|];
      forall i | 0 < i < |dropped| ensures IsJsSpace(dropped[i]) {
        assert dropped[i] == rest[i - 1];
      }
    }
  }

  /** `s` with its longest all-space suffix removed; `TrimEndSpec` says so. */
  function TrimEnd(s: string): (r: string)
    ensures |r| <= |s|
  {
    if |s| > 0 && IsJsSpace(s[|s| - 1]) then TrimEnd(s[..|s| - 1]) else s
  }

  /** `TrimEnd` removes a suffix of spaces, and the result does not end with a space. */
  lemma {:induction false} TrimEndSpec(s: string)
    ensures var r := TrimEnd(s);
            && r == s[..|r|]
            && (r == [] || !IsJsSpace(r[|r| - 1]))
            && AllSpace(s[|r|..])
  {
    if |s| > 0 && IsJsSpace(s[|s| - 1]) {
      var t := s[..|s| - 1];
      var r := TrimEnd(t);
      TrimEndSpec(t);
      assert t[..|r|] == s[..|r|];
      forall i | 0 <= i < |s| - |r| ensures IsJsSpace(s[|r|..][i]) {
        if i < |s| - 1 - |r| {
          assert s[|r|..][i] == t[|r|..][i];
        }
      }
    }
  }

  /**
   * `String.prototype.trim`: the result has no space at either end. The
   * lemmas below say which characters it keeps (`TrimKeepsMiddle`), when it
   * is empty (`TrimEmpty`) and that a trimmed string is kept as it is
   * (`TrimTrimmed`).
   */
  function Trim(s: string): (r: string)
    ensures IsTrimmed(r)
  {
    var t := TrimStart(s);
    var r := TrimEnd(t);
    TrimStartSpec(s);
    TrimEndSpec(t);
    assert r != [] ==> !IsJsSpace(r[0]) by {
      if r != [] { assert r[0] == t[0]; }
    }
    r
  }

  /**
   * What `trim()` keeps: a contiguous middle of `s`, with only spaces
   * before it and only spaces after it.
   */
  lemma {:induction false} TrimKeepsMiddle(s: string)
    ensures var r := Trim(s);
            exists k :: 0 <= k && k + |r| <= |s| && r == s[k..k + |r|] && AllSpace(s[..k]) && AllSpace(s[k + |r|..])
  {
    var t := TrimStart(s);
    var r := TrimEnd(t);
    TrimStartSpec(s);
    TrimEndSpec(t);
    assert Trim(s) == r;
    var k := |s| - |t|;
    MiddleSlice(s, t, r);
    assert r == s[k..k + |r|];
  }

  /** Every character `trim()` keeps comes from its input. */
  lemma {:induction false} TrimKeepsOnlyInput(s: string)
    ensures forall i :: 0 <= i < |Trim(s)| ==> Trim(s)[i] in s
  {
    var t := TrimStart(s);
    var r := TrimEnd(t);
    TrimStartSpec(s);
    TrimEndSpec(t);
    forall i | 0 <= i < |r| ensures r[i] in s {
      assert r[i] == t[i] == s[|s| - |t| + i];
    }
  }

  /** `trim()` gives the empty string exactly for an all-space input. */
  lemma {:induction false} TrimEmpty(s: string)
    ensures Trim(s) == [] <==> AllSpace(s)
  {
    var t := TrimStart(s);
    var r := TrimEnd(t);
    TrimStartSpec(s);
    TrimEndSpec(t);
    if r == [] {
      forall i | 0 <= i < |s| ensures IsJsSpace(s[i]) {
        assert s[i] == s[..|s| - |t|][i];
      }
    } else {
      assert s[|s| - |t|] == t[0] == r[0];
      assert !IsJsSpace(s[|s| - |t|]);
    }
  }

  /** A string with no space at either end is its own trim. */
  lemma TrimTrimmed(s: string)
    requires IsTrimmed(s)
    ensures Trim(s) == s
  {
  }

  /** A prefix of a suffix, each cut off by spaces, is a middle slice framed by spaces. */
  lemma {:induction false} MiddleSlice(s: string, t: string, r: string)
    requires |t| <= |s| && t == s[|s| - |t|..]
    requires |r| <= |t| && r == t[..|r|] && AllSpace(t[|r|..])
    ensures r == s[|s| - |t|..|s| - |t| + |r|]
    ensures AllSpace(s[|s| - |t| + |r|..])
  {
    assert s[|s| - |t| + |r|..] == t[|r|..];
  }

  /** `s.split(',')`: the pieces between commas, in order; always at least one. */
  function Split(s: string): (r: seq<string>)
    ensures |r| >= 1
    ensures forall i :: 0 <= i < |r| ==> ',' !in r[i]
  {
    if |s| == 0 then [""]
    else
      var rest := Split(s[1..]);
      if s[0] == ',' then [""] + rest
      else [[s[0]] + rest[0]] + rest[1..]
  }

  /** `parts.join(',')`. */
  function Join(parts: seq<string>): string
  {
    if parts == [] then ""
    else if |parts| == 1 then parts[0]
    else parts[0] + "," + Join(parts[1..])
  }

  /** Splitting and joining back gives the string split. */
  lemma {:induction false} JoinSplit(s: string)
    ensures Join(Split(s)) == s
  {
    if s != [] {
      var rest := Split(s[1..]);
      JoinSplit(s[1..]);
      if s[0] != ',' {
        var head := [s[0]] + rest[0];
        if |rest| == 1 {
          assert Split(s) == [head];
        } else {
          assert Split(s) == [head] + rest[1..];
          assert Join(rest) == rest[0] + "," + Join(rest[1..]);
          assert Join([head] + rest[1..]) == head + "," + Join(rest[1..]) by {
            assert ([head] + rest[1..])[1..] == rest[1..];
          }
        }
        assert s == [s[0]] + s[1..];
      } else {
        assert Split(s) == [""] + rest;
        assert ([""] + rest)[1..] == rest;
        assert s == "," + s[1..];
      }
    }
  }

  /** Splitting a comma-free piece, a comma and a tail gives the piece, then the tail's pieces. */
  lemma {:induction false} SplitCons(p: string, t: string)
    requires ',' !in p
    ensures Split(p + "," + t) == [p] + Split(t)
  {
    if p == [] {
      assert p + "," + t == [','] + t;
      assert ([','] + t)[1..] == t;
    } else {
      var s := p + "," + t;
      assert s[1..] == p[1..] + "," + t;
      SplitCons(p[1..], t);
      assert s[0] == p[0] && p[0] != ',';
      assert [p[0]] + p[1..] == p;
    }
  }

  /** A string without a comma splits into itself. */
  lemma {:induction false} SplitNoComma(p: string)
    requires ',' !in p
    ensures Split(p) == [p]
  {
    if p != [] {
      SplitNoComma(p[1..]);
      assert [p[0]] + p[1..] == p;
    }
  }

  /** Joining comma-free pieces and splitting again gives the pieces back. */
  lemma {:induction false} SplitJoin(parts: seq<string>)
    requires |parts| >= 1
    requires forall i :: 0 <= i < |parts| ==> ',' !in parts[i]
    ensures Split(Join(parts)) == parts
  {
    if |parts| == 1 {
      SplitNoComma(parts[0]);
    } else {
      SplitJoin(parts[1..]);
      SplitCons(parts[0], Join(parts[1..]));
      assert [parts[0]] + parts[1..] == parts;
    }
  }

  /** A co-author name as stored: non-empty, trimmed, free of commas. */
  predicate IsName(n: string)
  {
    n != "" && IsTrimmed(n) && ',' !in n
  }

  /** `.map(n => n.trim())`: each piece, trimmed, in place. */
  function TrimEach(parts: seq<string>): (r: seq<string>)
    ensures |r| == |parts|
  {
    seq(|parts|, i requires 0 <= i < |parts| => Trim(parts[i]))
  }

  /** `.filter(Boolean)` on strings: the non-empty ones, in order. */
  function DropEmpty(xs: seq<string>): (r: seq<string>)
    ensures |r| <= |xs|
  {
    if |xs| == 0 then []
    else if |xs[0]| == 0 then DropEmpty(xs[1..])
    else [xs[0]] + DropEmpty(xs[1..])
  }

  /** `filter(Boolean)` keeps exactly the non-empty strings of its input. */
  lemma {:induction false} DropEmptyMembers(xs: seq<string>, x: string)
    ensures x in DropEmpty(xs) <==> x != "" && x in xs
  {
    if |xs| > 0 {
      DropEmptyMembers(xs[1..], x);
      assert xs == [xs[0]] + xs[1..];
    }
  }

  /** `filter(Boolean)` of a concatenation is the concatenation of the filtered parts. */
  lemma {:induction false} DropEmptyAppend(a: seq<string>, b: seq<string>)
    ensures DropEmpty(a + b) == DropEmpty(a) + DropEmpty(b)
  {
    if |a| == 0 {
      assert a + b == b;
    } else {
      assert (a + b)[0] == a[0];
      assert (a + b)[1..] == a[1..] + b;
      DropEmptyAppend(a[1..], b);
    }
  }

  /** `filter(Boolean)` returns a list without empty strings unchanged. */
  lemma {:induction false} DropEmptyKeepsAll(xs: seq<string>)
    requires forall i :: 0 <= i < |xs| ==> xs[i] != ""
    ensures DropEmpty(xs) == xs
  {
    if |xs| > 0 {
      DropEmptyKeepsAll(xs[1..]);
      assert [xs[0]] + xs[1..] == xs;
    }
  }

  /** `.map(n => n.trim()).filter(Boolean)`: trims each piece and drops the ones left empty. */
  function TrimAndDropEmpty(parts: seq<string>): (r: seq<string>)
    ensures |r| <= |parts|
  {
    DropEmpty(TrimEach(parts))
  }

  /** Cleaning a concatenation of piece lists cleans each list, in order. */
  lemma {:induction false} TrimAndDropEmptyAppend(a: seq<string>, b: seq<string>)
    ensures TrimAndDropEmpty(a + b) == TrimAndDropEmpty(a) + TrimAndDropEmpty(b)
  {
    var ta, tb := TrimEach(a), TrimEach(b);
    forall i | 0 <= i < |a + b| ensures TrimEach(a + b)[i] == (ta + tb)[i] {
      if i < |a| {
        assert (a + b)[i] == a[i];
      } else {
        assert (a + b)[i] == b[i - |a|];
      }
    }
    assert TrimEach(a + b) == ta + tb;
    DropEmptyAppend(ta, tb);
  }

  /** Every piece that is not blank is kept, trimmed. */
  lemma {:induction false} TrimAndDropEmptyKeeps(parts: seq<string>, i: int)
    requires 0 <= i < |parts| && Trim(parts[i]) != ""
    ensures Trim(parts[i]) in TrimAndDropEmpty(parts)
  {
    assert TrimEach(parts)[i] == Trim(parts[i]);
    DropEmptyMembers(TrimEach(parts), Trim(parts[i]));
  }

  /** Everything kept is non-empty and is one of the pieces, trimmed. */
  lemma {:induction false} TrimAndDropEmptyOnlyTrims(parts: seq<string>, x: string)
    requires x in TrimAndDropEmpty(parts)
    ensures x != "" && exists i :: 0 <= i < |parts| && x == Trim(parts[i])
  {
    DropEmptyMembers(TrimEach(parts), x);
    var i :| 0 <= i < |parts| && TrimEach(parts)[i] == x;
  }

  /** Comma-free pieces, trimmed and filtered, are co-author names. */
  lemma {:induction false} TrimAndDropEmptyNames(parts: seq<string>)
    requires forall i :: 0 <= i < |parts| ==> ',' !in parts[i]
    ensures forall x :: x in TrimAndDropEmpty(parts) ==> IsName(x)
  {
    forall x | x in TrimAndDropEmpty(parts) ensures IsName(x) {
      TrimAndDropEmptyOnlyTrims(parts, x);
      var i :| 0 <= i < |parts| && x == Trim(parts[i]);
      TrimKeepsOnlyInput(parts[i]);
    }
  }

  /** `raw ? raw.split(',').map(n => n.trim()).filter(Boolean) : []`. */
  function ParseCoAuthors(raw: string): (r: seq<string>)
    ensures forall i :: 0 <= i < |r| ==> IsName(r[i])
    ensures |r| <= |Split(raw)|
  {
    if raw == "" then []
    else
      TrimAndDropEmptyNames(Split(raw));
      TrimAndDropEmpty(Split(raw))
  }

  /** Pieces that are already names pass through trimming and filtering unchanged. */
  lemma {:induction false} NamesSurviveCleaning(names: seq<string>)
    requires forall i :: 0 <= i < |names| ==> IsName(names[i])
    ensures TrimAndDropEmpty(names) == names
  {
    forall i | 0 <= i < |names| ensures TrimEach(names)[i] == names[i] {
      TrimTrimmed(names[i]);
    }
    assert TrimEach(names) == names;
    DropEmptyKeepsAll(names);
  }

  /**
   * Round trip: a list of names written out with commas parses back to the
   * same list. With `ParseCoAuthors` producing only names, every list it
   * returns is a fixpoint.
   */
  lemma {:induction false} ParseJoinRoundTrip(names: seq<string>)
    requires forall i :: 0 <= i < |names| ==> IsName(names[i])
    ensures ParseCoAuthors(Join(names)) == names
  {
    if names != [] {
      assert Join(names) != "" by {
        if |names| > 1 { assert |Join(names)| >= |names[0]|; }
      }
      SplitJoin(names);
      NamesSurviveCleaning(names);
    }
  }

  /** Parsing the comma-joined result of a parse changes nothing. */
  lemma {:induction false} ParseIdempotent(raw: string)
    ensures ParseCoAuthors(Join(ParseCoAuthors(raw))) == ParseCoAuthors(raw)
  {
    ParseJoinRoundTrip(ParseCoAuthors(raw));
  }

  /** The empty-string guard changes nothing: the one piece of "" is blank. */
  lemma {:induction false} ParseIsCleanedSplit(raw: string)
    ensures ParseCoAuthors(raw) == TrimAndDropEmpty(Split(raw))
  {
    if raw == "" {
      assert Split(raw) == [""];
      assert Trim("") == "";
      assert TrimEach([""]) == [""];
      assert [""][1..] == [];
    }
  }

  /**
   * Which names the parse keeps: exactly the pieces between commas that are
   * not blank, each trimmed.
   */
  lemma {:induction false} ParseCoAuthorsMembers(raw: string, x: string)
    ensures x in ParseCoAuthors(raw) <==>
              x != "" && exists i :: 0 <= i < |Split(raw)| && x == Trim(Split(raw)[i])
  {
    ParseIsCleanedSplit(raw);
    var parts := Split(raw);
    if x in ParseCoAuthors(raw) {
      TrimAndDropEmptyOnlyTrims(parts, x);
    }
    if x != "" && exists i :: 0 <= i < |parts| && x == Trim(parts[i]) {
      var i :| 0 <= i < |parts| && x == Trim(parts[i]);
      TrimAndDropEmptyKeeps(parts, i);
    }
  }

  /** Joining two non-empty lists of pieces puts one comma between their joins. */
  lemma {:induction false} JoinAppend(x: seq<string>, y: seq<string>)
    requires |x| >= 1 && |y| >= 1
    ensures Join(x + y) == Join(x) + "," + Join(y)
  {
    if |x| > 1 {
      assert (x + y)[1..] == x[1..] + y;
      JoinAppend(x[1..], y);
    } else {
      assert (x + y)[1..] == y;
    }
  }

  /** Splitting at one more comma concatenates the two sides' pieces. */
  lemma {:induction false} SplitAppend(a: string, b: string)
    ensures Split(a + "," + b) == Split(a) + Split(b)
  {
    var pa, pb := Split(a), Split(b);
    JoinSplit(a);
    JoinSplit(b);
    JoinAppend(pa, pb);
    assert forall i :: 0 <= i < |pa + pb| ==> ',' !in (pa + pb)[i] by {
      forall i | 0 <= i < |pa + pb| ensures ',' !in (pa + pb)[i] {
        if i < |pa| { assert (pa + pb)[i] == pa[i]; } else { assert (pa + pb)[i] == pb[i - |pa|]; }
      }
    }
    SplitJoin(pa + pb);
  }

  /**
   * The parse keeps the order of the input: the names before a comma come
   * before the names after it.
   */
  lemma {:induction false} ParseCoAuthorsAppend(a: string, b: string)
    ensures ParseCoAuthors(a + "," + b) == ParseCoAuthors(a) + ParseCoAuthors(b)
  {
    ParseIsCleanedSplit(a + "," + b);
    ParseIsCleanedSplit(a);
    ParseIsCleanedSplit(b);
    SplitAppend(a, b);
    TrimAndDropEmptyAppend(Split(a), Split(b));
  }

  /** A comma-free input parses to its trimmed self, or to nothing when it is blank. */
  lemma {:induction false} ParseOnePiece(p: string)
    requires ',' !in p
    ensures ParseCoAuthors(p) == if Trim(p) == "" then [] else [Trim(p)]
  {
    ParseIsCleanedSplit(p);
    SplitNoComma(p);
    assert TrimEach([p]) == [Trim(p)];
    assert [Trim(p)][1..] == [];
  }
}
