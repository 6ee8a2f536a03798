/** The few Python string operations the modelled code relies on: the `in`
    substring test, `str.replace`, with `str.split` and `str.join` as an
    independent description of it, and `str.isupper`. */
module PyStr {

  /** `sub` occurs in `s` starting at index `i`. */
  predicate OccursAt(s: string, sub: string, i: int) {
    0 <= i && i + |sub| <= |s| && s[i..i + |sub|] == sub
  }

  /** Python's `sub in s`; the empty string occurs in every string. */
  predicate Contains(s: string, sub: string) {
    exists i :: 0 <= i <= |s| && OccursAt(s, sub, i)
  }

  /** Python's `s.replace(old, new)`: scanning left to right, every occurrence
      of `old` that does not overlap an earlier replaced one becomes `new`.
      With an empty `old`, `new` is put before every character and at the end. */
  function Replace(s: string, oldSub: string, newSub: string): string
    decreases |s|
  {
    if oldSub == [] then
      (if s == [] then newSub else newSub + [s[0]] + Replace(s[1..], oldSub, newSub))
    else if |s| < |oldSub| then s
    else if s[..|oldSub|] == oldSub then newSub + Replace(s[|oldSub|..], oldSub, newSub)
    else [s[0]] + Replace(s[1..], oldSub, newSub)
  }

  /** Python's `s.split(sep)` for a non-empty separator. */
  function Split(s: string, sep: string): (pieces: seq<string>)
    requires sep != []
    ensures |pieces| >= 1
    decreases |s|
  {
    if |s| < |sep| then [s]
    else if s[..|sep|] == sep then [""] + Split(s[|sep|..], sep)
    else
      var p := Split(s[1..], sep);
      [[s[0]] + p[0]] + p[1..]
  }

  /** Python's `sep.join(pieces)` for a non-empty list of pieces. */
  function Join(pieces: seq<string>, sep: string): string
    requires |pieces| >= 1
  {
    if |pieces| == 1 then pieces[0] else pieces[0] + sep + Join(pieces[1..], sep)
  }

  lemma JoinPrependToFirst(c: string, p: seq<string>, sep: string)
    requires |p| >= 1
    ensures Join([c + p[0]] + p[1..], sep) == c + Join(p, sep)
  {
    var q := [c + p[0]] + p[1..];
    if |p| > 1 {
      assert q[1..] == p[1..];
    }
  }

  /** `s.replace(old, new) == new.join(s.split(old))` for a non-empty `old`. */
  lemma {:induction false} ReplaceIsJoinOfSplit(s: string, oldSub: string, newSub: string)
    requires oldSub != []
    ensures Replace(s, oldSub, newSub) == Join(Split(s, oldSub), newSub)
    decreases |s|
  {
    if |s| < |oldSub| {
    } else if s[..|oldSub|] == oldSub {
      ReplaceIsJoinOfSplit(s[|oldSub|..], oldSub, newSub);
      var p := Split(s[|oldSub|..], oldSub);
      assert ([""] + p)[1..] == p;
    } else {
      ReplaceIsJoinOfSplit(s[1..], oldSub, newSub);
      JoinPrependToFirst([s[0]], Split(s[1..], oldSub), newSub);
    }
  }

  /** Splitting on `sep` and joining with `sep` gives back the string. */
  lemma {:induction false} JoinOfSplit(s: string, sep: string)
    requires sep != []
    ensures Join(Split(s, sep), sep) == s
    decreases |s|
  {
    if |s| < |sep| {
    } else if s[..|sep|] == sep {
      var rest := s[|sep|..];
      JoinOfSplit(rest, sep);
      var p := Split(rest, sep);
      var q := [""] + p;
      assert Split(s, sep) == q;
      assert q[1..] == p;
      assert Join(q, sep) == "" + sep + Join(p, sep);
      assert s == sep + rest;
    } else {
      var p := Split(s[1..], sep);
      JoinOfSplit(s[1..], sep);
      assert Split(s, sep) == [[s[0]] + p[0]] + p[1..];
      JoinPrependToFirst([s[0]], p, sep);
      assert s == [s[0]] + s[1..];
    }
  }

  /** The first piece of a split is a prefix of the string. */
  lemma {:induction false} FirstPieceIsPrefix(s: string, sep: string)
    requires sep != []
    ensures |Split(s, sep)[0]| <= |s| && s[..|Split(s, sep)[0]|] == Split(s, sep)[0]
    decreases |s|
  {
    if |s| >= |sep| && s[..|sep|] != sep {
      var q := Split(s[1..], sep);
      FirstPieceIsPrefix(s[1..], sep);
      assert Split(s, sep)[0] == [s[0]] + q[0];
      assert s[..1 + |q[0]|] == [s[0]] + s[1..][..|q[0]|];
    }
  }

  /** No piece of a split contains the separator: the pieces are exactly the
      stretches between the occurrences that `Replace` rewrites. */
  lemma {:induction false} PiecesAvoidSeparator(s: string, sep: string, k: nat)
    requires sep != []
    requires k < |Split(s, sep)|
    ensures !Contains(Split(s, sep)[k], sep)
    decreases |s|
  {
    var p := Split(s, sep);
    SplitFirstCut(s, sep);
    if k == 0 {
      FirstPieceIsPrefix(s, sep);
      if |p| > 1 {
        PrefixBeforeOccurrence(s, sep, p[0]);
      }
    } else {
      SplitRest(s, sep);
      var rest := s[|p[0]| + |sep|..];
      assert p[k] == Split(rest, sep)[k - 1];
      PiecesAvoidSeparator(rest, sep, k - 1);
    }
  }

  /** A prefix that ends before the leftmost occurrence of `sub` does not
      contain it. */
  lemma PrefixBeforeOccurrence(s: string, sub: string, w: string)
    requires |w| <= |s| && s[..|w|] == w
    requires forall i :: 0 <= i < |w| ==> !OccursAt(s, sub, i)
    requires sub != []
    ensures !Contains(w, sub)
  {
    forall i | 0 <= i <= |w| && OccursAt(w, sub, i) ensures false {
      assert w[i..i + |sub|] == s[i..i + |sub|];
      assert OccursAt(s, sub, i);
    }
  }

  /** An occurrence past the first character is an occurrence in the tail. */
  lemma OccursInTail(s: string, sub: string, i: int)
    requires |s| >= 1 && i >= 1
    ensures OccursAt(s, sub, i) <==> OccursAt(s[1..], sub, i - 1)
  {
    if i + |sub| <= |s| {
      assert s[1..][i - 1..i - 1 + |sub|] == s[i..i + |sub|];
    }
  }

  /** Where `s.split(sep)` cuts: a single piece is the whole string and means
      `sep` does not occur; otherwise the first piece ends at the leftmost
      occurrence of `sep`, and the remaining pieces are the split of what
      follows that occurrence. So the cuts are the leftmost occurrence, then
      the leftmost one after it, and so on: an occurrence that overlaps one
      already cut is not cut. */
  lemma SplitCuts(s: string, sep: string)
    requires sep != []
    ensures var p := Split(s, sep);
      && (|p| == 1 <==> !Contains(s, sep))
      && (|p| == 1 ==> p[0] == s)
      && (|p| > 1 ==>
            && OccursAt(s, sep, |p[0]|)
            && (forall i :: 0 <= i < |p[0]| ==> !OccursAt(s, sep, i))
            && p[1..] == Split(s[|p[0]| + |sep|..], sep))
  {
    SplitFirstCut(s, sep);
    SplitRest(s, sep);
  }

  /** The first piece of a split: the whole string when `sep` does not
      occur, otherwise the stretch before its leftmost occurrence. */
  lemma {:induction false} SplitFirstCut(s: string, sep: string)
    requires sep != []
    ensures var p := Split(s, sep);
      && (|p| == 1 <==> !Contains(s, sep))
      && (|p| == 1 ==> p[0] == s)
      && (|p| > 1 ==>
            && OccursAt(s, sep, |p[0]|)
            && (forall i :: 0 <= i < |p[0]| ==> !OccursAt(s, sep, i)))
    decreases |s|
  {
    if |s| < |sep| {
      assert forall i :: !OccursAt(s, sep, i);
    } else if s[..|sep|] == sep {
      assert OccursAt(s, sep, 0);
    } else {
      SplitFirstCut(s[1..], sep);
      SplitShift(s, sep);
      var q := Split(s[1..], sep);
      if |q| == 1 {
        SplitCutsNone(s, sep);
      } else {
        OccursInTail(s, sep, |q[0]| + 1);
        NoEarlierCut(s, sep, |q[0]|);
      }
    }
  }

  /** After the first cut, the split goes on with what follows the separator. */
  lemma {:induction false} SplitRest(s: string, sep: string)
    requires sep != []
    ensures var p := Split(s, sep);
      |p| > 1 ==> |p[0]| + |sep| <= |s| && p[1..] == Split(s[|p[0]| + |sep|..], sep)
    decreases |s|
  {
    if |s| < |sep| {
      assert Split(s, sep) == [s];
    } else if s[..|sep|] == sep {
      var r := Split(s[|sep|..], sep);
      assert Split(s, sep) == [""] + r;
      assert Split(s, sep)[1..] == r;
    } else {
      SplitRest(s[1..], sep);
      SplitShift(s, sep);
      var q := Split(s[1..], sep);
      if |q| > 1 {
        var k := |q[0]|;
        var r := s[k + 1 + |sep|..];
        DropDrop(s, 1, k + |sep|);
        assert q[1..] == Split(r, sep);
        assert |Split(s, sep)[0]| == k + 1;
      }
    }
  }

  /** Dropping `a` characters and then `b` drops `a + b`. */
  lemma DropDrop(s: string, a: nat, b: nat)
    requires a + b <= |s|
    ensures s[a..][b..] == s[a + b..]
  {
  }

  /** The single-piece case of `SplitFirstCut` when `s` does not start with `sep`. */
  lemma SplitCutsNone(s: string, sep: string)
    requires sep != [] && |s| >= |sep| && s[..|sep|] != sep
    requires |Split(s[1..], sep)| == 1 && Split(s[1..], sep)[0] == s[1..]
    requires !Contains(s[1..], sep)
    ensures |Split(s, sep)| == 1 && Split(s, sep)[0] == s
    ensures !Contains(s, sep)
  {
    forall i | 0 <= i <= |s| ensures !OccursAt(s, sep, i) {
      if i > 0 {
        OccursInTail(s, sep, i);
      }
    }
  }

  /** `Split` on a string that does not start with `sep` adds its first
      character to the first piece of the split of the tail. */
  lemma SplitShift(s: string, sep: string)
    requires sep != [] && |s| >= |sep| && s[..|sep|] != sep
    ensures var q := Split(s[1..], sep);
      && Split(s, sep)[0] == [s[0]] + q[0]
      && Split(s, sep)[1..] == q[1..]
  {
    var q := Split(s[1..], sep);
    assert Split(s, sep) == [[s[0]] + q[0]] + q[1..];
  }

  /** No occurrence of `sep` starts in the first `k + 1` characters of `s`
      when none starts in the first `k` of its tail and none at its start. */
  lemma NoEarlierCut(s: string, sep: string, k: nat)
    requires |s| >= 1 && !OccursAt(s, sep, 0)
    requires forall i :: 0 <= i < k ==> !OccursAt(s[1..], sep, i)
    ensures forall i :: 0 <= i < k + 1 ==> !OccursAt(s, sep, i)
  {
    forall i | 0 < i < k + 1 ensures !OccursAt(s, sep, i) {
      OccursInTail(s, sep, i);
    }
  }

  /** Replacing a non-empty `old` that does not occur leaves the string as it is. */
  lemma {:induction false} ReplaceAbsent(s: string, oldSub: string, newSub: string)
    requires oldSub != [] && !Contains(s, oldSub)
    ensures Replace(s, oldSub, newSub) == s
    decreases |s|
  {
    if |s| >= |oldSub| {
      assert !OccursAt(s, oldSub, 0);
      assert !Contains(s[1..], oldSub) by {
        forall i | OccursAt(s[1..], oldSub, i) ensures OccursAt(s, oldSub, i + 1) {
          assert s[1..][i..i + |oldSub|] == s[i + 1..i + 1 + |oldSub|];
        }
      }
      ReplaceAbsent(s[1..], oldSub, newSub);
    }
  }

  /** Replacing a string by itself changes nothing, whether or not it is empty. */
  lemma {:induction false} ReplaceByItself(s: string, oldSub: string)
    ensures Replace(s, oldSub, oldSub) == s
    decreases |s|
  {
    if oldSub == [] {
      if s != [] {
        ReplaceByItself(s[1..], oldSub);
        assert s == [s[0]] + s[1..];
      }
    } else {
      ReplaceIsJoinOfSplit(s, oldSub, oldSub);
      JoinOfSplit(s, oldSub);
    }
  }

  predicate IsUpperChar(c: char) { 'A' <= c <= 'Z' }
  predicate IsLowerChar(c: char) { 'a' <= c <= 'z' }

  /** Python's `s.isupper()`: at least one cased character, and none of the
      cased characters is lower case (cased characters: the ASCII letters). */
  predicate IsUpper(s: string) {
    (exists i :: 0 <= i < |s| && IsUpperChar(s[i])) &&
    (forall i :: 0 <= i < |s| ==> !IsLowerChar(s[i]))
  }

  /** The one-pass scan Python's `str.isupper` performs: give up at the first
      lower-case letter, remember whether an upper-case one was seen. */
  function UpperScan(s: string, cased: bool): bool
    decreases |s|
  {
    if s == [] then cased
    else if IsLowerChar(s[0]) then false
    else UpperScan(s[1..], cased || IsUpperChar(s[0]))
  }

  /** The scan and the declarative definition agree on every string. */
  lemma {:induction false} IsUpperScan(s: string)
    ensures IsUpper(s) == UpperScan(s, false)
  {
    UpperScanFrom(s, false);
  }

  lemma {:induction false} UpperScanFrom(s: string, cased: bool)
    ensures UpperScan(s, cased) ==
      ((cased || exists i :: 0 <= i < |s| && IsUpperChar(s[i])) &&
       forall i :: 0 <= i < |s| ==> !IsLowerChar(s[i]))
    decreases |s|
  {
    if s != [] {
      UpperScanFrom(s[1..], cased || IsUpperChar(s[0]));
      assert forall i :: 0 < i < |s| ==> s[i] == s[1..][i - 1];
      if !IsLowerChar(s[0]) && !cased && !IsUpperChar(s[0]) {
        if exists i :: 0 <= i < |s| && IsUpperChar(s[i]) {
          var i :| 0 <= i < |s| && IsUpperChar(s[i]);
          assert IsUpperChar(s[1..][i - 1]);
        }
      }
      if !IsLowerChar(s[0]) && (forall i :: 0 <= i < |s[1..]| ==> !IsLowerChar(s[1..][i])) {
        forall i | 0 <= i < |s| ensures !IsLowerChar(s[i]) {
          if i > 0 { assert s[i] == s[1..][i - 1]; }
        }
      }
    }
  }
}
