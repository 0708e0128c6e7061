/** The Python `str` and `list` operations the scraper relies on, written over
    sequences: `str.index`, `str.split`/`str.join` with a one-character
    separator, `str.strip()`, `s[:-1]`, `str.startswith` and `del xs[lo:hi]`. */
module PyText {
  import opened Wrappers

  function Min(a: int, b: int): int {
    if a <= b then a else b
  }

  /** `s.index(x)` as an optional result: the first position holding `x`. */
  function IndexOf<T(==)>(s: seq<T>, x: T): (r: Option<nat>)
    ensures r.Some? ==> r.value < |s| && s[r.value] == x
    ensures r.Some? ==> forall j :: 0 <= j < r.value ==> s[j] != x
    ensures r.None? <==> x !in s
    decreases |s|
  {
    if |s| == 0 then None
    else if s[0] == x then Some(0)
    else match IndexOf(s[1..], x)
      case None => None
      case Some(j) => Some(j + 1)
  }

  /** A position holding `x` with no earlier `x` is the one `IndexOf` finds. */
  lemma FirstIndex<T>(s: seq<T>, x: T, v: nat)
    requires v < |s| && s[v] == x && forall j :: 0 <= j < v ==> s[j] != x
    ensures IndexOf(s, x) == Some(v)
  {
    var r := IndexOf(s, x);
    assert r.Some?;
    assert !(r.value < v) && !(v < r.value);
  }

  /** `s.startswith(prefix)` */
  predicate StartsWith(s: string, prefix: string) {
    |prefix| <= |s| && s[..|prefix|] == prefix
  }

  /** `s[:-1]`: drops the last element; the empty sequence stays empty. */
  function DropLast<T>(s: seq<T>): (r: seq<T>)
    ensures |s| == 0 ==> r == []
    ensures |s| > 0 ==> |r| == |s| - 1 && s == r + [s[|s| - 1]]
  {
    if |s| == 0 then s else s[..|s| - 1]
  }

  // ---------------------------------------------------------------------------
  // split / join on a one-character separator

  /** `s.split(sep)`: the pieces between occurrences of `sep`; an empty string
      gives one empty piece. */
  function Split(s: string, sep: char): (parts: seq<string>)
    ensures |parts| >= 1
    decreases |s|
  {
    if |s| == 0 then [""]
    else
      var rest := Split(s[1..], sep);
      if s[0] == sep then [""] + rest
      else [[s[0]] + rest[0]] + rest[1..]
  }

  /** No piece of a split contains the separator. */
  lemma {:induction false} SplitPiecesFree(s: string, sep: char)
    ensures forall i :: 0 <= i < |Split(s, sep)| ==> sep !in Split(s, sep)[i]
    decreases |s|
  {
    if |s| > 0 {
      var rest := Split(s[1..], sep);
      SplitPiecesFree(s[1..], sep);
      var parts := Split(s, sep);
      if s[0] == sep {
        assert parts == [""] + rest;
        forall i | 0 < i < |parts|
          ensures sep !in parts[i]
        {
          assert parts[i] == rest[i - 1];
        }
      } else {
        assert parts == [[s[0]] + rest[0]] + rest[1..];
        assert sep !in parts[0] by {
          assert parts[0] == [s[0]] + rest[0];
        }
        forall i | 0 < i < |parts|
          ensures sep !in parts[i]
        {
          assert parts[i] == rest[i];
        }
      }
    }
  }

  /** `sep.join(parts)` */
  function Join(sep: char, parts: seq<string>): string
    decreases |parts|
  {
    if |parts| == 0 then ""
    else if |parts| == 1 then parts[0]
    else parts[0] + [sep] + Join(sep, parts[1..])
  }

  /** Joining the pieces of a split with the same separator gives the string back. */
  lemma {:induction false} JoinSplit(s: string, sep: char)
    ensures Join(sep, Split(s, sep)) == s
    decreases |s|
  {
    if |s| > 0 {
      var rest := Split(s[1..], sep);
      JoinSplit(s[1..], sep);
      if s[0] == sep {
        assert Split(s, sep)[1..] == rest;
      } else if |rest| > 1 {
        var parts := Split(s, sep);
        assert parts[1..] == rest[1..];
        assert Join(sep, rest) == rest[0] + [sep] + Join(sep, rest[1..]);
        assert Join(sep, parts) == ([s[0]] + rest[0]) + [sep] + Join(sep, rest[1..]);
        assert s == [s[0]] + s[1..];
      } else {
        assert s == [s[0]] + s[1..];
      }
    }
  }

  /** The first piece of a split is everything before the first separator, and
      the remaining pieces, joined again, are everything after it.  Without a
      separator the split is the string alone. */
  lemma SplitAtFirst(s: string, sep: char)
    ensures sep !in s ==> Split(s, sep) == [s]
    ensures sep in s ==>
      var i := IndexOf(s, sep).value;
      Split(s, sep)[0] == s[..i] && Join(sep, Split(s, sep)[1..]) == s[i + 1..]
  {
    SplitFirst(s, sep);
    if sep in s {
      SplitJoinRest(s, sep);
    }
  }

  lemma {:induction false} SplitFirst(s: string, sep: char)
    ensures sep !in s ==> Split(s, sep) == [s]
    ensures sep in s ==> Split(s, sep)[0] == s[..IndexOf(s, sep).value]
    decreases |s|
  {
    if |s| > 0 && s[0] != sep {
      var tail := s[1..];
      var rest := Split(tail, sep);
      SplitFirst(tail, sep);
      assert s == [s[0]] + tail;
      assert Split(s, sep)[0] == [s[0]] + rest[0];
      if sep in tail {
        var j := IndexOf(tail, sep).value;
        assert IndexOf(s, sep) == Some(j + 1);
        assert s[..j + 1] == [s[0]] + tail[..j];
      } else {
        assert sep !in s;
      }
    }
  }

  lemma {:induction false} SplitJoinRest(s: string, sep: char)
    requires sep in s
    ensures Join(sep, Split(s, sep)[1..]) == s[IndexOf(s, sep).value + 1..]
    decreases |s|
  {
    var tail := s[1..];
    if s[0] == sep {
      assert IndexOf(s, sep) == Some(0);
      SplitCons(s, sep);
      JoinSplit(tail, sep);
    } else {
      IndexOfCons(s, sep);
      SplitCons(s, sep);
      SplitJoinRest(tail, sep);
      var j := IndexOf(tail, sep).value;
      assert s[j + 2..] == tail[j + 1..];
    }
  }

  /** One step of `Split`: the pieces after the first are those of the rest of
      the string, after its own first piece when `s` does not start with `sep`. */
  lemma SplitCons(s: string, sep: char)
    requires |s| > 0
    ensures s[0] == sep ==> Split(s, sep)[1..] == Split(s[1..], sep)
    ensures s[0] != sep ==> Split(s, sep)[1..] == Split(s[1..], sep)[1..]
  {
  }

  /** One step of `IndexOf` past a first element that is not `x`. */
  lemma IndexOfCons<T>(s: seq<T>, x: T)
    requires x in s && s[0] != x
    ensures x in s[1..] && IndexOf(s, x).value == IndexOf(s[1..], x).value + 1
  {
    assert s == [s[0]] + s[1..];
  }

  /** Splitting at the first separator and splitting the remainder again gives
      the same pieces as one split of the whole string. */
  lemma {:induction false} SplitRest(s: string, sep: char)
    requires sep in s
    ensures var i := IndexOf(s, sep).value;
      Split(s, sep) == [s[..i]] + Split(s[i + 1..], sep)
    decreases |s|
  {
    var rest := Split(s[1..], sep);
    if s[0] == sep {
      assert IndexOf(s, sep) == Some(0);
    } else {
      assert sep in s[1..];
      var i := IndexOf(s, sep).value;
      SplitRest(s[1..], sep);
      assert IndexOf(s[1..], sep).value == i - 1;
      assert s[1..][i..] == s[i + 1..];
      assert s[1..][..i - 1] == s[1..i];
      assert s[..i] == [s[0]] + s[1..i];
    }
  }

  /** With a separator present, the second piece runs from just after the first
      separator up to the next one, or to the end when there is none. */
  lemma {:induction false} SecondPiece(s: string, sep: char)
    requires sep in s
    ensures var parts, rest := Split(s, sep), s[IndexOf(s, sep).value + 1..];
      && |parts| >= 2
      && |parts[1]| <= |rest| && parts[1] == rest[..|parts[1]|]
      && (|parts[1]| == |rest| || rest[|parts[1]|] == sep)
  {
    var i := IndexOf(s, sep).value;
    var rest := s[i + 1..];
    var tail := Split(rest, sep);
    SplitRest(s, sep);
    assert Split(s, sep)[1] == tail[0];
    SplitAtFirst(rest, sep);
    if sep in rest {
      var j := IndexOf(rest, sep).value;
      assert tail[0] == rest[..j];
    } else {
      assert tail[0] == rest;
    }
  }

  /** A split yields more than one piece exactly when the separator occurs. */
  lemma {:induction false} SplitSeveral(s: string, sep: char)
    ensures |Split(s, sep)| >= 2 <==> sep in s
  {
    SplitAtFirst(s, sep);
    if sep in s {
      SplitRest(s, sep);
    }
  }

  // ---------------------------------------------------------------------------
  // strip

  /** Python's `str.isspace` for one character: the ASCII whitespace and
      separator controls and the Unicode space separators. */
  predicate IsSpace(c: char) {
    || ('\t' <= c <= '\r') || ('\U{1c}' <= c <= '\U{1f}') || c == ' '
    || c == '\U{85}' || c == '\U{a0}' || c == '\U{1680}' || ('\U{2000}' <= c <= '\U{200a}')
    || c == '\U{2028}' || c == '\U{2029}' || c == '\U{202f}' || c == '\U{205f}' || c == '\U{3000}'
  }

  /** Number of whitespace characters at the start of `s`. */
  function LeadingSpaces(s: string): (n: nat)
    ensures n <= |s|
    decreases |s|
  {
    if |s| > 0 && IsSpace(s[0]) then 1 + LeadingSpaces(s[1..]) else 0
  }

  /** The leading run is all whitespace and stops at the first other character. */
  lemma {:induction false} LeadingRun(s: string)
    ensures forall i :: 0 <= i < LeadingSpaces(s) ==> IsSpace(s[i])
    ensures LeadingSpaces(s) < |s| ==> !IsSpace(s[LeadingSpaces(s)])
    decreases |s|
  {
    if |s| > 0 && IsSpace(s[0]) {
      var tail := s[1..];
      LeadingRun(tail);
      forall i | 1 <= i < LeadingSpaces(s)
        ensures IsSpace(s[i])
      {
        assert s[i] == tail[i - 1];
      }
      if LeadingSpaces(s) < |s| {
        assert s[LeadingSpaces(s)] == tail[LeadingSpaces(tail)];
      }
    }
  }

  /** Number of whitespace characters at the end of `s`. */
  function TrailingSpaces(s: string): (n: nat)
    ensures n <= |s|
    decreases |s|
  {
    if |s| > 0 && IsSpace(s[|s| - 1]) then 1 + TrailingSpaces(s[..|s| - 1]) else 0
  }

  /** The trailing run is all whitespace and stops at the last other character. */
  lemma {:induction false} TrailingRun(s: string)
    ensures forall i :: |s| - TrailingSpaces(s) <= i < |s| ==> IsSpace(s[i])
    ensures TrailingSpaces(s) < |s| ==> !IsSpace(s[|s| - TrailingSpaces(s) - 1])
    decreases |s|
  {
    if |s| > 0 && IsSpace(s[|s| - 1]) {
      var init := s[..|s| - 1];
      TrailingRun(init);
      forall i | |s| - TrailingSpaces(s) <= i < |s| - 1
        ensures IsSpace(s[i])
      {
        assert s[i] == init[i];
      }
      if TrailingSpaces(s) < |s| {
        assert s[|s| - TrailingSpaces(s) - 1] == init[|init| - TrailingSpaces(init) - 1];
      }
    }
  }

  /** `s.strip()`: the infix of `s` that starts at its first and ends at its
      last non-whitespace character (see `StripSpec`). */
  function Strip(s: string): (r: string)
    ensures |r| <= |s|
  {
    var t := s[LeadingSpaces(s)..];
    t[..|t| - TrailingSpaces(t)]
  }

  /** What `strip` keeps is an infix of `s` whose ends are not whitespace, and
      everything it drops is whitespace. */
  lemma StripSpec(s: string)
    ensures var r := Strip(s);
      && (|r| > 0 ==> !IsSpace(r[0]) && !IsSpace(r[|r| - 1]))
      && LeadingSpaces(s) + |r| <= |s| && r == s[LeadingSpaces(s)..LeadingSpaces(s) + |r|]
      && forall i :: 0 <= i < |s| && !(LeadingSpaces(s) <= i < LeadingSpaces(s) + |r|) ==> IsSpace(s[i])
  {
    StripEnds(s);
    StripDropped(s);
  }

  lemma StripEnds(s: string)
    ensures |Strip(s)| > 0 ==> !IsSpace(Strip(s)[0]) && !IsSpace(Strip(s)[|Strip(s)| - 1])
  {
    var n := LeadingSpaces(s);
    var t := s[n..];
    var r := Strip(s);
    LeadingRun(s);
    TrailingRun(t);
    if |r| > 0 {
      assert r[0] == s[n];
      assert r[|r| - 1] == t[|t| - TrailingSpaces(t) - 1];
    }
  }

  lemma StripDropped(s: string)
    ensures forall i :: 0 <= i < |s| && !(LeadingSpaces(s) <= i < LeadingSpaces(s) + |Strip(s)|) ==> IsSpace(s[i])
  {
    var n := LeadingSpaces(s);
    var t := s[n..];
    var m := |Strip(s)|;
    LeadingRun(s);
    TrailingRun(t);
    assert m == |t| - TrailingSpaces(t);
    forall i | n + m <= i < |s|
      ensures IsSpace(s[i])
    {
      assert s[i] == t[i - n];
    }
  }

  /** Stripping twice is stripping once. */
  lemma StripIdempotent(s: string)
    ensures Strip(Strip(s)) == Strip(s)
  {
    var r := Strip(s);
    StripSpec(s);
    if |r| > 0 {
      assert LeadingSpaces(r) == 0;
      assert TrailingSpaces(r) == 0;
    }
  }

  // ---------------------------------------------------------------------------
  // list slice deletion

  /** `del xs[lo:hi]` with Python's slice clamping: bounds past the end are
      cut back to the length, and an empty or inverted range deletes nothing.
      It never fails. */
  function DeleteSlice<T>(xs: seq<T>, lo: nat, hi: nat): (r: seq<T>)
    ensures lo >= |xs| || hi <= lo ==> r == xs
    ensures lo < |xs| && lo < hi ==>
      && |r| == |xs| - (Min(hi, |xs|) - lo)
      && xs == r[..lo] + xs[lo..Min(hi, |xs|)] + r[lo..]
  {
    var a := Min(lo, |xs|);
    var b := if hi <= a then a else Min(hi, |xs|);
    xs[..a] + xs[b..]
  }

  /** Deleting the run that was inserted at `p` restores the sequence. */
  lemma InsertThenDelete<T>(xs: seq<T>, p: nat, junk: seq<T>)
    requires p <= |xs|
    ensures DeleteSlice(xs[..p] + junk + xs[p..], p, p + |junk|) == xs
  {
    var ys := xs[..p] + junk + xs[p..];
    if |junk| > 0 {
      assert ys[..p] == xs[..p];
      assert ys[p + |junk|..] == xs[p..];
    }
  }
}
