/** The parts of java.lang.String that the CSV reader relies on:
    toLowerCase (restricted to ASCII), trim, and split on a one-character
    delimiter with the default limit of zero. */
module JavaStrings {

  /** Lower-cases one character; only 'A'..'Z' change. */
  function LowerChar(c: char): (r: char)
    ensures 'A' <= c <= 'Z' ==> r as int == c as int + 32
    ensures !('A' <= c <= 'Z') ==> r == c
  {
    if 'A' <= c <= 'Z' then (c as int + 32) as char else c
  }

  /** String.toLowerCase: every character lower-cased, length kept. */
  function ToLower(s: string): (r: string)
    ensures |r| == |s|
    ensures forall i :: 0 <= i < |s| ==> r[i] == LowerChar(s[i])
  {
    if s == [] then [] else [LowerChar(s[0])] + ToLower(s[1..])
  }

  lemma {:induction false} ToLowerIdempotent(s: string)
    ensures ToLower(ToLower(s)) == ToLower(s)
  {
    var t := ToLower(s);
    assert forall i :: 0 <= i < |t| ==> ToLower(t)[i] == LowerChar(LowerChar(s[i])) == t[i];
  }

  /** No character of s changes under toLowerCase. */
  predicate IsLower(s: string)
  {
    forall i :: 0 <= i < |s| ==> LowerChar(s[i]) == s[i]
  }

  /** toLowerCase yields exactly the strings it leaves unchanged. */
  lemma ToLowerFixes(s: string)
    ensures IsLower(ToLower(s))
    ensures IsLower(s) <==> ToLower(s) == s
  {
    ToLowerIdempotent(s);
    if ToLower(s) == s {
      assert forall i :: 0 <= i < |s| ==> LowerChar(s[i]) == ToLower(s)[i] == s[i];
    }
  }

  /** The characters String.trim removes: every code point up to and including the space. */
  predicate IsSpace(c: char) {
    c <= ' '
  }

  /** Drops the leading characters up to ' '. */
  function TrimStart(s: string): string
  {
    if s != [] && IsSpace(s[0]) then TrimStart(s[1..]) else s
  }

  /** Drops the trailing characters up to ' '. */
  function TrimEnd(s: string): string
  {
    if s != [] && IsSpace(s[|s| - 1]) then TrimEnd(s[..|s| - 1]) else s
  }

  /** String.trim: drops the leading and the trailing characters up to ' '. */
  function Trim(s: string): string
  {
    TrimEnd(TrimStart(s))
  }

  lemma {:induction false} TrimStartIsSuffix(s: string)
    ensures var r := TrimStart(s);
      && |r| <= |s| && r == s[|s| - |r|..]
      && (r == [] || !IsSpace(r[0]))
      && forall i :: 0 <= i < |s| - |r| ==> IsSpace(s[i])
  {
    if s != [] && IsSpace(s[0]) {
      var r := TrimStart(s[1..]);
      TrimStartIsSuffix(s[1..]);
      assert TrimStart(s) == r;
      assert s[1..][|s| - 1 - |r|..] == s[|s| - |r|..];
      forall i | 0 <= i < |s| - |r|
        ensures IsSpace(s[i])
      {
        if i > 0 {
          assert s[i] == s[1..][i - 1];
        }
      }
    }
  }

  lemma {:induction false} TrimEndIsPrefix(s: string)
    ensures var r := TrimEnd(s);
      && |r| <= |s| && r == s[..|r|]
      && (r == [] || !IsSpace(r[|r| - 1]))
      && forall i :: |r| <= i < |s| ==> IsSpace(s[i])
  {
    if s != [] && IsSpace(s[|s| - 1]) {
      var r := TrimEnd(s[..|s| - 1]);
      TrimEndIsPrefix(s[..|s| - 1]);
      assert TrimEnd(s) == r;
      assert s[..|s| - 1][..|r|] == s[..|r|];
      forall i | |r| <= i < |s|
        ensures IsSpace(s[i])
      {
        if i < |s| - 1 {
          assert s[i] == s[..|s| - 1][i];
        }
      }
    }
  }

  /** Trim yields a slice of s that neither starts nor ends with a character
      up to ' ', and everything it drops is such a character. */
  lemma {:induction false} TrimIsSlice(s: string)
    ensures var r, lo := Trim(s), |s| - |TrimStart(s)|;
      && (r != [] ==> !IsSpace(r[0]) && !IsSpace(r[|r| - 1]))
      && 0 <= lo <= |s| - |r| && r == s[lo..lo + |r|]
      && (forall i :: 0 <= i < lo ==> IsSpace(s[i]))
      && (forall i :: lo + |r| <= i < |s| ==> IsSpace(s[i]))
  {
    var t := TrimStart(s);
    TrimStartIsSuffix(s);
    TrimEndIsPrefix(t);
    SliceOfSlice(s, t, TrimEnd(t));
  }

  /** A prefix r of a suffix t of s, where t has only spaces after r. */
  lemma SliceOfSlice(s: string, t: string, r: string)
    requires |t| <= |s| && t == s[|s| - |t|..]
    requires |r| <= |t| && r == t[..|r|]
    requires forall i :: |r| <= i < |t| ==> IsSpace(t[i])
    ensures var lo := |s| - |t|;
      && r == s[lo..lo + |r|]
      && (r != [] ==> r[0] == t[0])
      && forall i :: lo + |r| <= i < |s| ==> IsSpace(s[i])
  {
    var lo := |s| - |t|;
    forall i | lo + |r| <= i < |s|
      ensures IsSpace(s[i])
    {
      assert s[i] == t[i - lo];
    }
  }

  lemma TrimIdempotent(s: string)
    ensures Trim(Trim(s)) == Trim(s)
  {
    TrimIsSlice(s);
    var t := Trim(s);
    if t != [] {
      assert TrimStart(t) == t;
      assert TrimEnd(t) == t;
    }
  }

  /** Trimming a lower-case string leaves it lower-case. */
  lemma TrimKeepsLower(s: string)
    requires IsLower(s)
    ensures IsLower(Trim(s))
  {
    TrimIsSlice(s);
    var r, lo := Trim(s), |s| - |TrimStart(s)|;
    forall i | 0 <= i < |r|
      ensures LowerChar(r[i]) == r[i]
    {
      assert r[i] == s[lo + i];
    }
  }

  /** Joins the parts with the delimiter between consecutive parts. */
  function Join(parts: seq<string>, d: char): string
  {
    if parts == [] then []
    else if |parts| == 1 then parts[0]
    else parts[0] + [d] + Join(parts[1..], d)
  }

  /** Every piece between delimiters, empty ones included (one more piece than
      there are delimiters). */
  function SplitAll(s: string, d: char): (parts: seq<string>)
    ensures |parts| >= 1
    ensures forall i :: 0 <= i < |parts| ==> d !in parts[i]
  {
    if s == [] then [[]]
    else
      var tail := SplitAll(s[1..], d);
      if s[0] == d then [[]] + tail
      else [[s[0]] + tail[0]] + tail[1..]
  }

  lemma {:induction false} JoinSplitAll(s: string, d: char)
    ensures Join(SplitAll(s, d), d) == s
  {
    if s != [] {
      var tail := SplitAll(s[1..], d);
      JoinSplitAll(s[1..], d);
      if s[0] != d && |tail| >= 2 {
        calc {
          Join(SplitAll(s, d), d);
          ([s[0]] + tail[0]) + [d] + Join(tail[1..], d);
          [s[0]] + (tail[0] + [d] + Join(tail[1..], d));
          [s[0]] + Join(tail, d);
        }
      }
    }
  }

  lemma JoinCons(c: char, x: string, xs: seq<string>, d: char)
    ensures Join([[c] + x] + xs, d) == [c] + Join([x] + xs, d)
  {
    if xs != [] {
      assert ([[c] + x] + xs)[1..] == xs;
      assert ([x] + xs)[1..] == xs;
    }
  }

  lemma {:induction false} SplitAllJoin(parts: seq<string>, d: char)
    requires |parts| >= 1
    requires forall i :: 0 <= i < |parts| ==> d !in parts[i]
    ensures SplitAll(Join(parts, d), d) == parts
    decreases |Join(parts, d)|
  {
    var p := parts[0];
    var ps := parts[1..];
    if p == [] {
      if ps != [] {
        assert Join(parts, d) == [d] + Join(ps, d);
        assert ([d] + Join(ps, d))[1..] == Join(ps, d);
        SplitAllJoin(ps, d);
      }
    } else {
      var rest := [p[1..]] + ps;
      assert p == [p[0]] + p[1..];
      assert parts == [[p[0]] + p[1..]] + ps;
      JoinCons(p[0], p[1..], ps, d);
      assert forall i :: 0 <= i < |rest| ==> d !in rest[i] by {
        forall i | 0 <= i < |rest| ensures d !in rest[i] {
          if i == 0 { assert forall c :: c in p[1..] ==> c in p; } else { assert rest[i] == parts[i]; }
        }
      }
      SplitAllJoin(rest, d);
      assert ([p[0]] + Join(rest, d))[1..] == Join(rest, d);
    }
  }

  /** Removes the empty strings at the end of the list. */
  function DropTrailingEmpty(parts: seq<string>): (r: seq<string>)
    ensures r <= parts
    ensures forall i :: |r| <= i < |parts| ==> parts[i] == []
    ensures r == [] || r[|r| - 1] != []
  {
    if parts == [] then []
    else if parts[|parts| - 1] == [] then DropTrailingEmpty(parts[..|parts| - 1])
    else parts
  }

  /** String.split with a one-character pattern and limit zero: an input without
      the delimiter is returned whole (even when empty); otherwise every piece,
      interior empty pieces kept and trailing empty pieces dropped. No trimming. */
  function Split(s: string, d: char): (r: seq<string>)
    ensures d !in s ==> r == [s]
    ensures d in s ==> r <= SplitAll(s, d)
    ensures d in s ==> forall i :: |r| <= i < |SplitAll(s, d)| ==> SplitAll(s, d)[i] == []
    ensures d in s ==> r == [] || r[|r| - 1] != []
    ensures forall i :: 0 <= i < |r| ==> d !in r[i]
  {
    if d !in s then [s] else DropTrailingEmpty(SplitAll(s, d))
  }

  /** Every piece SplitAll cuts from a lower-case string is lower-case. */
  lemma {:induction false} SplitAllKeepsLower(s: string, d: char)
    requires IsLower(s)
    ensures forall i :: 0 <= i < |SplitAll(s, d)| ==> IsLower(SplitAll(s, d)[i])
  {
    if s != [] {
      var tail := SplitAll(s[1..], d);
      assert IsLower(s[1..]) by {
        assert forall i :: 0 <= i < |s| - 1 ==> s[1..][i] == s[i + 1];
      }
      SplitAllKeepsLower(s[1..], d);
      if s[0] != d {
        var first := [s[0]] + tail[0];
        assert IsLower(first) by {
          assert forall i :: 1 <= i < |first| ==> first[i] == tail[0][i - 1];
        }
        assert SplitAll(s, d) == [first] + tail[1..];
        assert forall i :: 1 <= i < |SplitAll(s, d)| ==> SplitAll(s, d)[i] == tail[i];
      } else {
        assert forall i :: 1 <= i < |SplitAll(s, d)| ==> SplitAll(s, d)[i] == tail[i - 1];
      }
    }
  }

  /** Every piece Split cuts from a lower-case string is lower-case. */
  lemma SplitKeepsLower(s: string, d: char)
    requires IsLower(s)
    ensures forall i :: 0 <= i < |Split(s, d)| ==> IsLower(Split(s, d)[i])
  {
    if d in s {
      SplitAllKeepsLower(s, d);
      assert forall i :: 0 <= i < |Split(s, d)| ==> Split(s, d)[i] == SplitAll(s, d)[i];
    }
  }
}
