/** The two string operations the page script relies on, with JavaScript's
    semantics: `String.prototype.split` with a one-character separator and
    `String.prototype.includes`. */
module Text {

  /** Number of occurrences of `c` in `s` */
  function Count(s: string, c: char): nat
    decreases |s|
  {
    if |s| == 0 then 0 else (if s[0] == c then 1 else 0) + Count(s[1..], c)
  }

  lemma {:induction false} CountZero(s: string, c: char)
    ensures Count(s, c) == 0 <==> c !in s
    decreases |s|
  {
    if |s| > 0 {
      CountZero(s[1..], c);
      assert s == [s[0]] + s[1..];
    }
  }

  // ---------------------------------------------------------------------------
  // split
  // ---------------------------------------------------------------------------

  /** `s.split(sep)`: the pieces of `s` between occurrences of `sep`. Adjacent
      separators, and a separator at either end, produce empty pieces, and the
      empty string splits into one empty piece. */
  function Split(s: string, sep: char): (r: seq<string>)
    ensures |r| == Count(s, sep) + 1
    ensures forall i :: 0 <= i < |r| ==> sep !in r[i]
    decreases |s|
  {
    if |s| == 0 then [""]
    else
      var rest := Split(s[1..], sep);
      if s[0] == sep then [""] + rest
      else [[s[0]] + rest[0]] + rest[1..]
  }

  /** The pieces glued back together with `sep` between neighbours */
  function Join(parts: seq<string>, sep: char): string
    requires |parts| > 0
    decreases |parts|
  {
    if |parts| == 1 then parts[0] else parts[0] + [sep] + Join(parts[1..], sep)
  }

  /** Gluing the pieces of a split back together gives the original string. */
  lemma {:induction false} JoinSplit(s: string, sep: char)
    ensures Join(Split(s, sep), sep) == s
    decreases |s|
  {
    if |s| > 0 {
      var rest := Split(s[1..], sep);
      JoinSplit(s[1..], sep);
      if s[0] == sep {
        assert ([""] + rest)[1..] == rest;
      } else {
        JoinGrowHead(s[0], rest, sep);
      }
      assert s == [s[0]] + s[1..];
    }
  }

  /** Prefixing the first piece with `c` prefixes the joined string with `c`. */
  lemma JoinGrowHead(c: char, parts: seq<string>, sep: char)
    requires |parts| > 0
    ensures Join([[c] + parts[0]] + parts[1..], sep) == [c] + Join(parts, sep)
  {
    var grown := [[c] + parts[0]] + parts[1..];
    if |parts| > 1 {
      assert grown[1..] == parts[1..];
    }
  }

  /** A string without the separator splits into itself alone. */
  lemma {:induction false} SplitWithoutSeparator(p: string, sep: char)
    requires sep !in p
    ensures Split(p, sep) == [p]
    decreases |p|
  {
    if |p| > 0 {
      SplitWithoutSeparator(p[1..], sep);
      assert p == [p[0]] + p[1..];
    }
  }

  /** A separator-free piece followed by the separator splits off as the
      first piece. */
  lemma {:induction false} SplitAfterPiece(p: string, sep: char, x: string)
    requires sep !in p
    ensures Split(p + [sep] + x, sep) == [p] + Split(x, sep)
    decreases |p|
  {
    var s := p + [sep] + x;
    if |p| == 0 {
      assert s[1..] == x;
    } else {
      assert s[1..] == p[1..] + [sep] + x;
      SplitAfterPiece(p[1..], sep, x);
      assert [p[0]] + p[1..] == p;
    }
  }

  /** Splitting the join of separator-free pieces gives the pieces back. */
  lemma {:induction false} SplitJoin(parts: seq<string>, sep: char)
    requires |parts| > 0
    requires forall i :: 0 <= i < |parts| ==> sep !in parts[i]
    ensures Split(Join(parts, sep), sep) == parts
    decreases |parts|
  {
    if |parts| == 1 {
      SplitWithoutSeparator(parts[0], sep);
    } else {
      SplitJoin(parts[1..], sep);
      SplitAfterPiece(parts[0], sep, Join(parts[1..], sep));
      assert [parts[0]] + parts[1..] == parts;
    }
  }

  /** The first piece of a split is the prefix of `s` that runs up to the
      first separator, or to the end of `s` when there is none. */
  lemma {:induction false} SplitFirstPiece(s: string, sep: char)
    ensures var f := Split(s, sep)[0];
            && |f| <= |s| && s[..|f|] == f
            && (|f| == |s| || s[|f|] == sep)
    decreases |s|
  {
    if |s| > 0 && s[0] != sep {
      SplitFirstPiece(s[1..], sep);
      var g := Split(s[1..], sep)[0];
      assert s[..|g| + 1] == [s[0]] + s[1..][..|g|];
    }
  }

  /** `t` sits in `s` at index `i` with a separator, or an end of `s`, on
      either side */
  predicate DelimitedAt(s: string, t: string, sep: char, i: int)
  {
    && OccursAt(s, t, i)
    && (i == 0 || s[i - 1] == sep)
    && (i + |t| == |s| || s[i + |t|] == sep)
  }

  /** The first occurrence of `c` in `s` */
  lemma {:induction false} FirstOccurrence(s: string, c: char) returns (k: nat)
    requires c in s
    ensures k < |s| && s[k] == c && c !in s[..k]
    decreases |s|
  {
    if s[0] == c {
      k := 0;
    } else {
      assert s == [s[0]] + s[1..];
      var j := FirstOccurrence(s[1..], c);
      k := j + 1;
      assert s[..k] == [s[0]] + s[1..][..j];
    }
  }

  /** Without a separator in `s`, the only delimited string is `s` itself. */
  lemma DelimitedWithoutSeparator(s: string, t: string, sep: char, i: int)
    requires sep !in s
    requires DelimitedAt(s, t, sep, i)
    ensures t == s
  {
    assert s[0..|s|] == s;
  }

  /** A piece delimited in the tail `x` of `p + [sep] + x` is delimited in the
      whole string, shifted past the first separator. */
  lemma DelimitedInTail(p: string, sep: char, x: string, t: string, j: int)
    requires DelimitedAt(x, t, sep, j)
    ensures DelimitedAt(p + [sep] + x, t, sep, |p| + 1 + j)
  {
    var s := p + [sep] + x;
    assert x[j..j + |t|] == s[|p| + 1 + j..|p| + 1 + j + |t|];
  }

  /** A separator-free string delimited in `s` no later than the first
      separator, at index `k`, is the whole prefix before that separator. */
  lemma DelimitedBeforeFirst(s: string, k: int, t: string, sep: char, i: int)
    requires 0 <= k < |s| && s[k] == sep
    requires forall m :: 0 <= m < k ==> s[m] != sep
    requires forall m :: 0 <= m < |t| ==> t[m] != sep
    requires DelimitedAt(s, t, sep, i) && i <= k
    ensures t == s[..k]
  {
    assert i == 0;
    assert forall m :: 0 <= m < |t| ==> s[m] == t[m];
    assert |t| <= k;
    assert |t| >= k;
  }

  /** A string delimited in `p + [sep] + x` after the first separator is
      delimited in `x`. */
  lemma DelimitedAfterFirst(p: string, sep: char, x: string, t: string, i: int)
    requires DelimitedAt(p + [sep] + x, t, sep, i) && i > |p|
    ensures DelimitedAt(x, t, sep, i - |p| - 1)
  {
    var s := p + [sep] + x;
    var j := i - |p| - 1;
    assert x[j..j + |t|] == s[i..i + |t|];
  }

  /** A separator-free string delimited in `p + [sep] + x`, where `p` holds no
      separator, is either `p` or delimited in `x`. */
  lemma DelimitedInWhole(p: string, sep: char, x: string, t: string, i: int)
    requires sep !in p && sep !in t
    requires DelimitedAt(p + [sep] + x, t, sep, i)
    ensures t == p || DelimitedAt(x, t, sep, i - |p| - 1)
  {
    var s := p + [sep] + x;
    if i <= |p| {
      assert s[..|p|] == p;
      DelimitedBeforeFirst(s, |p|, t, sep, i);
    } else {
      DelimitedAfterFirst(p, sep, x, t, i);
    }
  }

  /** The pieces of a split are exactly the separator-free strings that sit in
      `s` between separators or ends of `s`. */
  lemma {:induction false} SplitPieceIff(s: string, t: string, sep: char)
    ensures t in Split(s, sep) <==> sep !in t && exists i :: DelimitedAt(s, t, sep, i)
    decreases |s|
  {
    if sep !in s {
      SplitWithoutSeparator(s, sep);
      if t == s {
        assert s[0..|s|] == s;
        assert DelimitedAt(s, t, sep, 0);
      }
      if sep !in t && exists i :: DelimitedAt(s, t, sep, i) {
        var i :| DelimitedAt(s, t, sep, i);
        DelimitedWithoutSeparator(s, t, sep, i);
      }
    } else {
      var k := FirstOccurrence(s, sep);
      var p, x := s[..k], s[k + 1..];
      assert s == p + [sep] + x;
      SplitAfterPiece(p, sep, x);
      SplitPieceIff(x, t, sep);
      if t in Split(s, sep) {
        if t == p {
          assert s[0..k] == p;
          assert DelimitedAt(s, t, sep, 0);
        } else {
          var j :| DelimitedAt(x, t, sep, j);
          DelimitedInTail(p, sep, x, t, j);
        }
      }
      if sep !in t && exists i :: DelimitedAt(s, t, sep, i) {
        var i :| DelimitedAt(s, t, sep, i);
        DelimitedInWhole(p, sep, x, t, i);
      }
    }
  }

  // ---------------------------------------------------------------------------
  // includes
  // ---------------------------------------------------------------------------

  predicate StartsWith(s: string, prefix: string)
  {
    |prefix| <= |s| && s[..|prefix|] == prefix
  }

  /** `t` occurs in `s` starting at index `i` */
  predicate OccursAt(s: string, t: string, i: int)
  {
    0 <= i && i + |t| <= |s| && s[i..i + |t|] == t
  }

  /** `s.includes(t)`: a left-to-right search for `t` in `s` */
  predicate Contains(s: string, t: string)
    decreases |s|
  {
    StartsWith(s, t) || (|s| > 0 && Contains(s[1..], t))
  }

  /** The search finds `t` exactly when `t` occurs somewhere in `s`. */
  lemma {:induction false} ContainsIff(s: string, t: string)
    ensures Contains(s, t) <==> exists i :: OccursAt(s, t, i)
    decreases |s|
  {
    if |s| > 0 {
      ContainsIff(s[1..], t);
    }
    if Contains(s, t) {
      if StartsWith(s, t) {
        assert OccursAt(s, t, 0);
      } else {
        var j :| OccursAt(s[1..], t, j);
        assert s[1..][j..j + |t|] == s[j + 1..j + 1 + |t|];
        assert OccursAt(s, t, j + 1);
      }
    }
    if exists i :: OccursAt(s, t, i) {
      var i :| OccursAt(s, t, i);
      if i > 0 {
        assert s[1..][i - 1..i - 1 + |t|] == s[i..i + |t|];
        assert OccursAt(s[1..], t, i - 1);
      }
    }
  }

  /** Every string includes the empty string. */
  lemma ContainsEmpty(s: string)
    ensures Contains(s, "")
  {
    ContainsIff(s, "");
    assert OccursAt(s, "", 0);
  }

  /** A one-character search succeeds exactly when the character is present. */
  lemma ContainsChar(s: string, c: char)
    ensures Contains(s, [c]) <==> c in s
  {
    ContainsIff(s, [c]);
    if c in s {
      var i :| 0 <= i < |s| && s[i] == c;
      assert s[i..i + 1] == [c];
      assert OccursAt(s, [c], i);
    }
    if exists i :: OccursAt(s, [c], i) {
      var i :| OccursAt(s, [c], i);
      assert s[i] == s[i..i + 1][0];
    }
  }
}
