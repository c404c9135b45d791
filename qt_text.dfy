/** The two QString operations the window's logic depends on: splitting on one
    character (with and without Qt::SkipEmptyParts) and substring search
    (QString::contains). Strings are sequences of characters. */
module QtText {

  /** QString::split(sep) keeping empty parts: the pieces between separators,
      one more piece than there are separators. */
  function SplitAt(s: string, sep: char): (parts: seq<string>)
    ensures |parts| >= 1
    decreases |s|
  {
    if |s| == 0 then [[]]
    else
      var rest := SplitAt(s[1..], sep);
      if s[0] == sep then [[]] + rest
      else [[s[0]] + rest[0]] + rest[1..]
  }

  /** No piece contains the separator. */
  lemma {:induction false} SplitAtPiecesFree(s: string, sep: char)
    ensures forall i :: 0 <= i < |SplitAt(s, sep)| ==> sep !in SplitAt(s, sep)[i]
    decreases |s|
  {
    if |s| > 0 {
      SplitAtPiecesFree(s[1..], sep);
      var rest := SplitAt(s[1..], sep);
      if s[0] == sep {
        assert forall i :: 1 <= i < |rest| + 1 ==> ([[]] + rest)[i] == rest[i - 1];
      } else {
        var parts := [[s[0]] + rest[0]] + rest[1..];
        assert forall i :: 1 <= i < |parts| ==> parts[i] == rest[i];
      }
    }
  }

  /** QStringList::join(sep): the pieces with one separator between neighbours. */
  function Join(parts: seq<string>, sep: char): string
  {
    if |parts| == 0 then []
    else if |parts| == 1 then parts[0]
    else parts[0] + [sep] + Join(parts[1..], sep)
  }

  /** Splitting loses nothing: joining the pieces gives the string back. */
  lemma {:induction false} JoinSplit(s: string, sep: char)
    ensures Join(SplitAt(s, sep), sep) == s
    decreases |s|
  {
    if |s| > 0 {
      JoinSplit(s[1..], sep);
      var rest := SplitAt(s[1..], sep);
      if s[0] == sep {
        assert ([[]] + rest)[1..] == rest;
      } else if |rest| > 1 {
        assert ([[s[0]] + rest[0]] + rest[1..])[1..] == rest[1..];
      }
      assert s == [s[0]] + s[1..];
    }
  }

  /** A string without the separator is a single piece. */
  lemma {:induction false} SplitAtNoSep(s: string, sep: char)
    requires sep !in s
    ensures SplitAt(s, sep) == [s]
    decreases |s|
  {
    if |s| > 0 {
      assert sep !in s[1..];
      SplitAtNoSep(s[1..], sep);
      assert s == [s[0]] + s[1..];
    }
  }

  /** One step of SplitAt on a string with a known first character. */
  lemma SplitAtCons(c: char, t: string, sep: char)
    ensures SplitAt([c] + t, sep)
      == if c == sep then [[]] + SplitAt(t, sep)
         else [[c] + SplitAt(t, sep)[0]] + SplitAt(t, sep)[1..]
  {
    assert ([c] + t)[0] == c && ([c] + t)[1..] == t;
  }

  /** Gluing a character onto the first piece commutes with appending pieces. */
  lemma GlueHead(c: char, r: seq<string>, t: seq<string>)
    requires |r| >= 1
    ensures [[c] + (r + t)[0]] + (r + t)[1..] == ([[c] + r[0]] + r[1..]) + t
  {
    assert (r + t)[0] == r[0];
    assert (r + t)[1..] == r[1..] + t;
  }

  /** A separator between two strings separates their pieces. */
  lemma {:induction false} SplitAtConcat(a: string, b: string, sep: char)
    ensures SplitAt(a + [sep] + b, sep) == SplitAt(a, sep) + SplitAt(b, sep)
    decreases |a|
  {
    if |a| == 0 {
      assert a + [sep] + b == [sep] + b;
      SplitAtCons(sep, b, sep);
    } else {
      var c, tail := a[0], a[1..];
      assert a == [c] + tail;
      assert a + [sep] + b == [c] + (tail + [sep] + b);
      SplitAtConcat(tail, b, sep);
      SplitAtCons(c, tail + [sep] + b, sep);
      SplitAtCons(c, tail, sep);
      if c != sep {
        GlueHead(c, SplitAt(tail, sep), SplitAt(b, sep));
      }
    }
  }

  /** Splitting is undone by joining: pieces without separators come back unchanged. */
  lemma {:induction false} SplitJoin(parts: seq<string>, sep: char)
    requires |parts| >= 1
    requires forall i :: 0 <= i < |parts| ==> sep !in parts[i]
    ensures SplitAt(Join(parts, sep), sep) == parts
    decreases |parts|
  {
    SplitAtNoSep(parts[0], sep);
    if |parts| > 1 {
      SplitJoin(parts[1..], sep);
      SplitAtConcat(parts[0], Join(parts[1..], sep), sep);
      assert parts == [parts[0]] + parts[1..];
    }
  }

  /** What Qt::SkipEmptyParts does to the pieces: the empty ones are dropped,
      the others kept in order. */
  function DropEmpty(parts: seq<string>): (kept: seq<string>)
    ensures |kept| <= |parts|
    ensures forall i :: 0 <= i < |kept| ==> kept[i] != [] && kept[i] in parts
  {
    if |parts| == 0 then []
    else if parts[0] == [] then DropEmpty(parts[1..])
    else [parts[0]] + DropEmpty(parts[1..])
  }

  lemma {:induction false} DropEmptyConcat(a: seq<string>, b: seq<string>)
    ensures DropEmpty(a + b) == DropEmpty(a) + DropEmpty(b)
    decreases |a|
  {
    if |a| > 0 {
      assert (a + b)[0] == a[0] && (a + b)[1..] == a[1..] + b;
      DropEmptyConcat(a[1..], b);
      if a[0] == [] {
        assert DropEmpty(a + b) == DropEmpty(a[1..] + b);
        assert DropEmpty(a) == DropEmpty(a[1..]);
      } else {
        assert DropEmpty(a + b) == [a[0]] + DropEmpty(a[1..] + b);
        assert DropEmpty(a) == [a[0]] + DropEmpty(a[1..]);
      }
    } else {
      assert a + b == b;
    }
  }

  /** QString::split(sep, Qt::SkipEmptyParts): the non-empty pieces between separators. */
  function SplitSkipEmpty(s: string, sep: char): (parts: seq<string>)
    ensures forall i :: 0 <= i < |parts| ==> parts[i] != [] && sep !in parts[i]
  {
    SplitAtPiecesFree(s, sep);
    DropEmpty(SplitAt(s, sep))
  }

  /** A string without the separator is one part, or none when it is empty. */
  lemma SplitSkipEmptyNoSep(s: string, sep: char)
    requires sep !in s
    ensures SplitSkipEmpty(s, sep) == if s == [] then [] else [s]
  {
    SplitAtNoSep(s, sep);
    assert [s][1..] == [];
  }

  /** A first piece ended by a separator comes out first, and the rest is split on its own. */
  lemma SplitSkipEmptyCons(head: string, rest: string, sep: char)
    requires head != [] && sep !in head
    ensures SplitSkipEmpty(head + [sep] + rest, sep) == [head] + SplitSkipEmpty(rest, sep)
  {
    SplitAtConcat(head, rest, sep);
    SplitAtNoSep(head, sep);
    DropEmptyConcat([head], SplitAt(rest, sep));
    assert [head][1..] == [];
  }

  /** One more piece than there are separators. */
  lemma {:induction false} SplitAtPieceCount(s: string, sep: char)
    ensures |SplitAt(s, sep)| == multiset(s)[sep] + 1
    decreases |s|
  {
    if |s| > 0 {
      SplitAtPieceCount(s[1..], sep);
      assert s == [s[0]] + s[1..];
      assert multiset(s) == multiset([s[0]]) + multiset(s[1..]);
    }
  }

  /** With empty parts skipped, a separator between two strings still separates
      their parts. */
  lemma SplitSkipEmptyConcat(a: string, b: string, sep: char)
    ensures SplitSkipEmpty(a + [sep] + b, sep) == SplitSkipEmpty(a, sep) + SplitSkipEmpty(b, sep)
  {
    SplitAtConcat(a, b, sep);
    DropEmptyConcat(SplitAt(a, sep), SplitAt(b, sep));
  }

  /** A string of separators only has no parts. */
  lemma {:induction false} SplitSkipEmptyOnlySeps(s: string, sep: char)
    requires forall i :: 0 <= i < |s| ==> s[i] == sep
    ensures SplitSkipEmpty(s, sep) == []
    decreases |s|
  {
    if |s| > 0 {
      assert s == [] + [sep] + s[1..];
      SplitSkipEmptyConcat([], s[1..], sep);
      SplitSkipEmptyOnlySeps(s[1..], sep);
      assert SplitSkipEmpty([], sep) == [];
    }
  }

  /** Trailing separators add no part: "a\n\n" splits like "a". */
  lemma SplitSkipEmptyTrailingSeps(s: string, trailer: string, sep: char)
    requires forall i :: 0 <= i < |trailer| ==> trailer[i] == sep
    ensures SplitSkipEmpty(s + trailer, sep) == SplitSkipEmpty(s, sep)
  {
    if |trailer| > 0 {
      assert s + trailer == s + [sep] + trailer[1..];
      SplitSkipEmptyConcat(s, trailer[1..], sep);
      SplitSkipEmptyOnlySeps(trailer[1..], sep);
    } else {
      assert s + trailer == s;
    }
  }

  /** Leading separators add no part: "\n\na" splits like "a". */
  lemma SplitSkipEmptyLeadingSeps(lead: string, s: string, sep: char)
    requires forall i :: 0 <= i < |lead| ==> lead[i] == sep
    ensures SplitSkipEmpty(lead + s, sep) == SplitSkipEmpty(s, sep)
  {
    if |lead| > 0 {
      var init := lead[..|lead| - 1];
      assert lead + s == init + [sep] + s;
      SplitSkipEmptyConcat(init, s, sep);
      SplitSkipEmptyOnlySeps(init, sep);
    } else {
      assert lead + s == s;
    }
  }

  /** All the pieces laid end to end. */
  function Concat(parts: seq<string>): string
  {
    if |parts| == 0 then [] else parts[0] + Concat(parts[1..])
  }

  /** The string with every occurrence of the separator removed. */
  function Remove(s: string, sep: char): string
  {
    if |s| == 0 then []
    else if s[0] == sep then Remove(s[1..], sep)
    else [s[0]] + Remove(s[1..], sep)
  }

  lemma {:induction false} ConcatDropEmpty(parts: seq<string>)
    ensures Concat(DropEmpty(parts)) == Concat(parts)
    decreases |parts|
  {
    if |parts| > 0 {
      ConcatDropEmpty(parts[1..]);
      if parts[0] != [] {
        assert ([parts[0]] + DropEmpty(parts[1..]))[1..] == DropEmpty(parts[1..]);
      }
    }
  }

  lemma {:induction false} ConcatSplitAt(s: string, sep: char)
    ensures Concat(SplitAt(s, sep)) == Remove(s, sep)
    decreases |s|
  {
    if |s| > 0 {
      ConcatSplitAt(s[1..], sep);
      var rest := SplitAt(s[1..], sep);
      if s[0] == sep {
        assert ([[]] + rest)[1..] == rest;
      } else {
        assert ([[s[0]] + rest[0]] + rest[1..])[1..] == rest[1..];
      }
    }
  }

  /** Skipping empty parts loses only separators: the parts, laid end to end,
      are the string with its separators removed. */
  lemma SplitSkipEmptyKeepsText(s: string, sep: char)
    ensures Concat(SplitSkipEmpty(s, sep)) == Remove(s, sep)
  {
    ConcatDropEmpty(SplitAt(s, sep));
    ConcatSplitAt(s, sep);
  }

  /** QString::contains(p): p occurs somewhere in s. */
  predicate Contains(s: string, p: string)
    decreases |s|
  {
    p <= s || (|s| > 0 && Contains(s[1..], p))
  }

  /** p occurs in s starting at position i. */
  predicate OccursAt(s: string, p: string, i: nat)
  {
    i + |p| <= |s| && s[i..i + |p|] == p
  }

  /** A slice of the tail is the slice of the string one position further on. */
  lemma SliceOfTail(s: string, i: nat, n: nat)
    requires 1 <= i && i + n <= |s|
    ensures s[1..][i - 1..i - 1 + n] == s[i..i + n]
  {
    var tail := s[1..];
    var t := tail[i - 1..i - 1 + n];
    var u := s[i..i + n];
    assert forall k :: 0 <= k < n ==> t[k] == tail[i - 1 + k] == u[k];
  }

  /** Contains is substring search: it holds exactly when p occurs at some position. */
  lemma {:induction false} ContainsIff(s: string, p: string)
    ensures Contains(s, p) <==> exists i: nat :: OccursAt(s, p, i)
    decreases |s|
  {
    if p <= s {
      assert OccursAt(s, p, 0);
    } else if |s| > 0 {
      ContainsIff(s[1..], p);
      if Contains(s[1..], p) {
        var i: nat :| OccursAt(s[1..], p, i);
        SliceOfTail(s, i + 1, |p|);
        assert OccursAt(s, p, i + 1);
      } else {
        forall i: nat | OccursAt(s, p, i) ensures i > 0 && OccursAt(s[1..], p, i - 1) {
          SliceOfTail(s, i, |p|);
        }
      }
    } else {
      forall i: nat | OccursAt(s, p, i) ensures false {
      }
    }
  }

  /** A pattern whose first character does not appear in s is not contained in s. */
  lemma {:induction false} ContainsNeedsFirstChar(s: string, p: string)
    requires |p| > 0 && p[0] !in s
    ensures !Contains(s, p)
    decreases |s|
  {
    if |s| > 0 {
      assert s[0] != p[0];
      ContainsNeedsFirstChar(s[1..], p);
    }
  }
}
