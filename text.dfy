/**
 * The string primitives the constraint parser relies on: Rust's `str::trim`
 * (which strips Unicode white space at both ends) and `str::split` on a
 * single character.
 */
module Text {

  /** Rust's `char::is_whitespace`: the Unicode White_Space property. */
  predicate IsSpace(c: char)
  {
    ('\t' <= c <= '\r') || c == ' ' || c == '\U{85}' || c == '\U{A0}' || c == '\U{1680}'
    || ('\U{2000}' <= c <= '\U{200A}') || c == '\U{2028}' || c == '\U{2029}'
    || c == '\U{202F}' || c == '\U{205F}' || c == '\U{3000}'
  }

  predicate AllSpace(s: string)
  {
    forall i :: 0 <= i < |s| ==> IsSpace(s[i])
  }

  /** `str::trim_start`: the suffix of `s` left after its leading white space. */
  function TrimStart(s: string): (r: string)
    ensures |r| <= |s| && r == s[|s| - |r|..]
    ensures AllSpace(s[..|s| - |r|])
    ensures r == [] || !IsSpace(r[0])
  {
    if s != [] && IsSpace(s[0]) then
      var r := TrimStart(s[1..]);
      SpaceBefore(s, r);
      r
    else s
  }

  /** A leading space extends the white space stripped from the rest. */
  lemma SpaceBefore(s: string, r: string)
    requires s != [] && IsSpace(s[0])
    requires |r| <= |s| - 1 && r == s[1..][|s| - 1 - |r|..] && AllSpace(s[1..][..|s| - 1 - |r|])
    ensures r == s[|s| - |r|..] && AllSpace(s[..|s| - |r|])
  {
    var k := |s| - |r|;
    assert forall i :: 1 <= i < k ==> s[..k][i] == s[1..][..k - 1][i - 1];
  }

  /** `str::trim_end`: the prefix of `s` left after its trailing white space. */
  function TrimEnd(s: string): (r: string)
    ensures |r| <= |s| && r == s[..|r|]
    ensures AllSpace(s[|r|..])
    ensures r == [] || !IsSpace(r[|r| - 1])
  {
    if s != [] && IsSpace(s[|s| - 1]) then
      var r := TrimEnd(s[..|s| - 1]);
      SpaceAfter(s, r);
      r
    else s
  }

  /** A trailing space extends the white space stripped from the rest. */
  lemma SpaceAfter(s: string, r: string)
    requires s != [] && IsSpace(s[|s| - 1])
    requires |r| <= |s| - 1 && r == s[..|s| - 1][..|r|] && AllSpace(s[..|s| - 1][|r|..])
    ensures r == s[..|r|] && AllSpace(s[|r|..])
  {
    assert forall i :: 0 <= i < |s| - 1 - |r| ==> s[|r|..][i] == s[..|s| - 1][|r|..][i];
  }

  /** `str::trim`. */
  function Trim(s: string): (r: string)
    ensures r == [] || (!IsSpace(r[0]) && !IsSpace(r[|r| - 1]))
  {
    TrimStart(TrimEnd(s))
  }

  /** `s.split(sep)`: the pieces between separators, in order; `[""]` for the empty string. */
  function Split(s: string, sep: char): (parts: seq<string>)
    ensures |parts| >= 1
    ensures forall i :: 0 <= i < |parts| ==> sep !in parts[i]
  {
    if s == [] then [[]]
    else
      var rest := Split(s[1..], sep);
      if s[0] == sep then [[]] + rest else [[s[0]] + rest[0]] + rest[1..]
  }

  /** Joins pieces with `sep` between them: the inverse of `Split`. */
  function Join(parts: seq<string>, sep: char): string
    requires |parts| >= 1
  {
    if |parts| == 1 then parts[0] else parts[0] + [sep] + Join(parts[1..], sep)
  }

  /** `.map(|s| s.trim())` over a list of pieces. */
  function TrimAll(parts: seq<string>): seq<string>
  {
    seq(|parts|, i requires 0 <= i < |parts| => Trim(parts[i]))
  }

  /** A single piece trims to its trimmed self. */
  lemma TrimAllSingle(x: string)
    ensures TrimAll([x]) == [Trim(x)]
  {
    assert TrimAll([x])[0] == Trim(x);
  }

  /**
   * Trimming every piece keeps one piece per piece, each without white space
   * at either end, and trimming the list again changes nothing.
   */
  lemma TrimAllTrimmed(parts: seq<string>)
    ensures |TrimAll(parts)| == |parts|
    ensures forall i :: 0 <= i < |parts| ==> var t := TrimAll(parts)[i];
      t == [] || (!IsSpace(t[0]) && !IsSpace(t[|t| - 1]))
    ensures TrimAll(TrimAll(parts)) == TrimAll(parts)
  {
    forall i | 0 <= i < |parts|
      ensures TrimAll(TrimAll(parts))[i] == TrimAll(parts)[i]
    {
      TrimIdempotent(parts[i]);
    }
  }

  /** A trimmed text holds no character its text does not. */
  lemma TrimKeeps(s: string, c: char)
    requires c !in s
    ensures c !in Trim(s)
  {
    var l, r := TrimDecompose(s);
    assert forall i :: 0 <= i < |Trim(s)| ==> Trim(s)[i] == s[|l| + i];
  }


  // ---------------------------------------------------------------------
  // Trimming

  /** A text is all white space when its first character and the rest are. */
  lemma AllSpaceFirst(x: string)
    requires x != []
    ensures AllSpace(x) <==> IsSpace(x[0]) && AllSpace(x[1..])
  {
    assert forall i :: 0 < i < |x| ==> x[i] == x[1..][i - 1];
  }

  /** A text is all white space when its last character and the rest are. */
  lemma AllSpaceLast(x: string)
    requires x != []
    ensures AllSpace(x) <==> IsSpace(x[|x| - 1]) && AllSpace(x[..|x| - 1])
  {
    assert forall i :: 0 <= i < |x| - 1 ==> x[i] == x[..|x| - 1][i];
  }

  lemma {:induction false} TrimStartConcat(x: string, y: string)
    ensures TrimStart(x + y) == if AllSpace(x) then TrimStart(y) else TrimStart(x) + y
  {
    if x == [] {
      assert x + y == y;
    } else {
      var z := x + y;
      assert z[0] == x[0] && z[1..] == x[1..] + y;
      AllSpaceFirst(x);
      if IsSpace(x[0]) {
        TrimStartConcat(x[1..], y);
      }
    }
  }

  lemma {:induction false} TrimEndConcat(x: string, y: string)
    ensures TrimEnd(x + y) == if AllSpace(y) then TrimEnd(x) else x + TrimEnd(y)
    decreases |y|
  {
    if y == [] {
      assert x + y == x;
    } else {
      var y', z := y[..|y| - 1], x + y;
      assert z[|z| - 1] == y[|y| - 1] && z[..|z| - 1] == x + y';
      AllSpaceLast(y);
      if IsSpace(y[|y| - 1]) {
        assert TrimEnd(z) == TrimEnd(x + y') && TrimEnd(y) == TrimEnd(y');
        TrimEndConcat(x, y');
      } else {
        assert TrimEnd(z) == z && TrimEnd(y) == y;
      }
    }
  }

  /** Trimming a list of pieces piece by piece distributes over concatenation. */
  lemma TrimAllConcat(x: seq<string>, y: seq<string>)
    ensures TrimAll(x + y) == TrimAll(x) + TrimAll(y)
  {
    var a, b := TrimAll(x + y), TrimAll(x) + TrimAll(y);
    forall i | 0 <= i < |a|
      ensures a[i] == b[i]
    {
      if i < |x| {
        assert (x + y)[i] == x[i] && b[i] == TrimAll(x)[i];
      } else {
        assert (x + y)[i] == y[i - |x|] && b[i] == TrimAll(y)[i - |x|];
      }
    }
  }

  /**
   * Text without separators added around `t` joins the first and the last piece
   * of `t`'s split; the pieces in between are untouched.
   */
  lemma SplitPadded(l: string, t: string, r: string, sep: char)
    requires sep !in l && sep !in r
    ensures var ps, qs := Split(t, sep), Split(l + t + r, sep);
      && |qs| == |ps|
      && forall i :: 0 <= i < |ps| ==>
           qs[i] == (if i == 0 then l else []) + ps[i] + (if i == |ps| - 1 then r else [])
  {
    SplitSuffix(t, r, sep);
    assert l + t + r == l + (t + r);
    SplitPrefix(l, t + r, sep);
    PaddedPieces(Split(t, sep), Split(t + r, sep), Split(l + t + r, sep), l, r);
  }

  /** Extending the last piece by `r` and then the first by `l` pads just those two. */
  lemma PaddedPieces(ps: seq<string>, ms: seq<string>, qs: seq<string>, l: string, r: string)
    requires |ps| >= 1
    requires ms == ps[..|ps| - 1] + [ps[|ps| - 1] + r]
    requires qs == [l + ms[0]] + ms[1..]
    ensures |qs| == |ps|
    ensures forall i :: 0 <= i < |ps| ==>
      qs[i] == (if i == 0 then l else []) + ps[i] + (if i == |ps| - 1 then r else [])
  {
    var n := |ps|;
    forall i | 0 <= i < n
      ensures qs[i] == (if i == 0 then l else []) + ps[i] + (if i == n - 1 then r else [])
    {
      var m := if i == n - 1 then ps[i] + r else ps[i];
      assert ms[i] == m;
      if i == 0 {
        assert qs[i] == l + m;
      } else {
        assert qs[i] == ms[i] && [] + ps[i] == ps[i];
      }
      assert ps[i] + [] == ps[i];
    }
  }


  /** White space around a text does not survive trimming. */
  lemma TrimPadding(l: string, x: string, r: string)
    requires AllSpace(l) && AllSpace(r)
    ensures Trim(l + x + r) == Trim(x)
  {
    TrimEndConcat(l + x, r);
    TrimEndConcat(l, x);
    if AllSpace(x) {
      TrimEndConcat([], l);
      assert [] + l == l;
      TrimEndConcat([], x);
      assert [] + x == x;
    } else {
      TrimStartConcat(l, TrimEnd(x));
    }
  }

  /** Pieces that differ only by white space padding trim to the same list. */
  lemma TrimAllPadded(ps: seq<string>, qs: seq<string>, l: string, r: string)
    requires AllSpace(l) && AllSpace(r)
    requires |qs| == |ps|
    requires forall i :: 0 <= i < |ps| ==>
      qs[i] == (if i == 0 then l else []) + ps[i] + (if i == |ps| - 1 then r else [])
    ensures TrimAll(qs) == TrimAll(ps)
  {
    forall i | 0 <= i < |ps|
      ensures Trim(qs[i]) == Trim(ps[i])
    {
      var l', r' := if i == 0 then l else [], if i == |ps| - 1 then r else [];
      assert AllSpace(l') && AllSpace(r');
      TrimPadding(l', ps[i], r');
    }
  }

  /** Splitting on a separator that is not white space, then trimming every piece, ignores white space around the whole. */
  lemma SplitTrimmed(s: string, sep: char)
    requires !IsSpace(sep)
    ensures TrimAll(Split(Trim(s), sep)) == TrimAll(Split(s, sep))
  {
    var l, r := TrimDecompose(s);
    assert sep !in l && sep !in r;
    SplitPadded(l, Trim(s), r, sep);
    TrimAllPadded(Split(Trim(s), sep), Split(s, sep), l, r);
  }

  /** A text that neither starts nor ends with white space is its own trimmed form. */
  lemma TrimUntouched(s: string)
    requires s != [] ==> !IsSpace(s[0]) && !IsSpace(s[|s| - 1])
    ensures Trim(s) == s
  {
  }

  /** Any text is its trimmed form with white space on both sides. */
  lemma TrimDecompose(s: string) returns (l: string, r: string)
    ensures AllSpace(l) && AllSpace(r)
    ensures s == l + Trim(s) + r
  {
    var e := TrimEnd(s);
    var t := TrimStart(e);
    assert t == Trim(s);
    r := s[|e|..];
    l := e[..|e| - |t|];
    assert s == e + r;
    assert e == l + t;
  }


  /** Trimming a trimmed text changes nothing. */
  lemma TrimIdempotent(s: string)
    ensures Trim(Trim(s)) == Trim(s)
  {
    var t := Trim(s);
    if t != [] {
      assert TrimEnd(t) == t;
      assert TrimStart(t) == t;
    }
  }

  // ---------------------------------------------------------------------
  // Splitting

  lemma {:induction false} SplitJoin(s: string, sep: char)
    ensures Join(Split(s, sep), sep) == s
  {
    if s != [] {
      SplitJoin(s[1..], sep);
      var rest := Split(s[1..], sep);
      if s[0] != sep {
        if |rest| == 1 {
        } else {
          assert ([[s[0]] + rest[0]] + rest[1..])[1..] == rest[1..];
          assert Join(rest, sep) == rest[0] + [sep] + Join(rest[1..], sep);
        }
      }
    }
  }

  /** Text on both sides of one separator splits into the two sides' pieces. */
  lemma {:induction false} SplitConcat(a: string, b: string, sep: char)
    ensures Split(a + [sep] + b, sep) == Split(a, sep) + Split(b, sep)
  {
    if a == [] {
      assert a + [sep] + b == [sep] + b;
      assert ([sep] + b)[1..] == b;
    } else {
      assert (a + [sep] + b)[1..] == a[1..] + [sep] + b;
      SplitConcat(a[1..], b, sep);
    }
  }

  /** Text with no separator in front joins the first piece. */
  lemma {:induction false} SplitPrefix(l: string, m: string, sep: char)
    requires sep !in l
    ensures Split(l + m, sep) == [l + Split(m, sep)[0]] + Split(m, sep)[1..]
  {
    var ps := Split(m, sep);
    if l == [] {
      assert l + m == m && l + ps[0] == ps[0];
      assert ps == [ps[0]] + ps[1..];
    } else {
      assert (l + m)[1..] == l[1..] + m;
      SplitPrefix(l[1..], m, sep);
      assert [l[0]] + (l[1..] + Split(m, sep)[0]) == l + Split(m, sep)[0];
    }
  }

  /** One character that is not the separator is a single piece. */
  lemma SplitSingle(c: char, sep: char)
    requires c != sep
    ensures Split([c], sep) == [[c]]
  {
    var rest := Split([c][1..], sep);
    assert [c][1..] == [] && rest == [[]];
    assert [c] + rest[0] == [c] && rest[1..] == [];
  }

  /** Splitting a text that starts with `c`: a separator opens a new piece, anything else joins the first. */
  lemma SplitCons(c: char, t: string, sep: char)
    ensures var ts := Split(t, sep);
      Split([c] + t, sep) == if c == sep then [[]] + ts else [[c] + ts[0]] + ts[1..]
  {
    assert ([c] + t)[0] == c && ([c] + t)[1..] == t;
  }

  /** Extending the last piece commutes with an empty piece in front. */
  lemma EmptyThenLast(ts: seq<string>, r: string)
    requires |ts| >= 1
    ensures var ps := [[]] + ts;
      ps[..|ps| - 1] + [ps[|ps| - 1] + r] == [[]] + (ts[..|ts| - 1] + [ts[|ts| - 1] + r])
  {
    var ps := [[]] + ts;
    assert ps[..|ps| - 1] == [[]] + ts[..|ts| - 1];
  }

  /** Extending the last piece commutes with a character joining the first. */
  lemma CharThenLast(c: char, ts: seq<string>, r: string)
    requires |ts| >= 1
    ensures var ps, us := [[c] + ts[0]] + ts[1..], ts[..|ts| - 1] + [ts[|ts| - 1] + r];
      ps[..|ps| - 1] + [ps[|ps| - 1] + r] == [[c] + us[0]] + us[1..]
  {
    var ps, us := [[c] + ts[0]] + ts[1..], ts[..|ts| - 1] + [ts[|ts| - 1] + r];
    if |ts| == 1 {
      assert [c] + ts[0] + r == [c] + (ts[0] + r);
    } else {
      assert ps[..|ps| - 1] == [[c] + ts[0]] + ts[1..|ts| - 1];
      assert us[0] == ts[0] && us[1..] == ts[1..|ts| - 1] + [ts[|ts| - 1] + r];
    }
  }

  /** Text with no separator behind joins the last piece. */
  lemma {:induction false} SplitSuffix(m: string, r: string, sep: char)
    requires sep !in r
    ensures var ps := Split(m, sep);
      Split(m + r, sep) == ps[..|ps| - 1] + [ps[|ps| - 1] + r]
  {
    if m == [] {
      assert m + r == r;
      SplitPrefix(r, [], sep);
      assert r + [] == r;
    } else {
      var c, t := m[0], m[1..];
      assert m == [c] + t && m + r == [c] + (t + r);
      SplitSuffix(t, r, sep);
      SplitCons(c, t, sep);
      SplitCons(c, t + r, sep);
      if c == sep {
        EmptyThenLast(Split(t, sep), r);
      } else {
        CharThenLast(c, Split(t, sep), r);
      }
    }
  }
}
