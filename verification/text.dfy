/**
  String operations the service relies on: JavaScript's `String.split` and
  `Array.join` (splitting on one character), and the relational `<` of two
  JavaScript strings (lexicographic by character code).
 */
module Text {

  /** `Array.join(sep)` over a non-empty list of strings. */
  function Join(parts: seq<string>, sep: string): string
    requires |parts| >= 1
  {
    if |parts| == 1 then parts[0] else parts[0] + sep + Join(parts[1..], sep)
  }

  /**
    A one-character separator that no piece holds occurs in the joined text
    exactly once between each two pieces, and the first piece leads.
   */
  lemma {:induction false} JoinSeparators(parts: seq<string>, sep: char)
    requires |parts| >= 1
    requires forall i :: 0 <= i < |parts| ==> sep !in parts[i]
    ensures multiset(Join(parts, [sep]))[sep] == |parts| - 1
    ensures parts[0] <= Join(parts, [sep])
  {
    if |parts| > 1 {
      var rest := Join(parts[1..], [sep]);
      assert forall i :: 0 <= i < |parts[1..]| ==> parts[1..][i] == parts[i + 1];
      JoinSeparators(parts[1..], sep);
      assert multiset(parts[0] + [sep] + rest) == multiset(parts[0]) + multiset([sep]) + multiset(rest);
      assert parts[0] + [sep] + rest == parts[0] + ([sep] + rest);
    }
  }

  /**
    `s.split(sep)`: the pieces between occurrences of `sep`. Splitting never
    yields an empty list (the empty string splits into one empty piece), no
    piece contains the separator, and joining the pieces gives back `s`.
   */
  function Split(s: string, sep: char): (parts: seq<string>)
    ensures |parts| >= 1
    ensures forall i :: 0 <= i < |parts| ==> sep !in parts[i]
    ensures Join(parts, [sep]) == s
  {
    if |s| == 0 then [""]
    else
      var rest := Split(s[1..], sep);
      if s[0] == sep then
        assert [sep] + s[1..] == s;
        [""] + rest
      else
        var parts := [[s[0]] + rest[0]] + rest[1..];
        assert parts[1..] == rest[1..];
        assert |rest| > 1 ==> Join(rest, [sep]) == rest[0] + [sep] + Join(rest[1..], [sep]);
        assert [s[0]] + s[1..] == s;
        parts
  }

  lemma {:induction false} SplitWithoutSeparator(p: string, sep: char)
    requires sep !in p
    ensures Split(p, sep) == [p]
  {
    if |p| > 0 {
      SplitWithoutSeparator(p[1..], sep);
      assert [p[0]] + p[1..] == p;
    }
  }

  lemma {:induction false} SplitAfterPiece(p: string, sep: char, t: string)
    requires sep !in p
    ensures Split(p + [sep] + t, sep) == [p] + Split(t, sep)
  {
    var s := p + [sep] + t;
    if |p| == 0 {
      assert s[1..] == t;
    } else {
      assert s[1..] == p[1..] + [sep] + t;
      SplitAfterPiece(p[1..], sep, t);
      assert [p[0]] + p[1..] == p;
    }
  }

  /** Splitting a join recovers the pieces when no piece holds the separator. */
  lemma {:induction false} SplitJoin(parts: seq<string>, sep: char)
    requires |parts| >= 1
    requires forall i :: 0 <= i < |parts| ==> sep !in parts[i]
    ensures Split(Join(parts, [sep]), sep) == parts
  {
    if |parts| == 1 {
      SplitWithoutSeparator(parts[0], sep);
    } else {
      SplitJoin(parts[1..], sep);
      SplitAfterPiece(parts[0], sep, Join(parts[1..], [sep]));
      assert [parts[0]] + parts[1..] == parts;
    }
  }

  /** JavaScript `a < b` on strings: lexicographic by character code. */
  predicate LexLess(a: string, b: string) {
    if |a| == 0 then |b| > 0
    else if |b| == 0 then false
    else if a[0] != b[0] then a[0] < b[0]
    else LexLess(a[1..], b[1..])
  }

  /** `a` is a proper prefix of `b`. */
  predicate ProperPrefix(a: string, b: string) {
    |a| < |b| && a == b[..|a|]
  }

  /** `a` and `b` agree before position `i` and `a` holds the smaller character there. */
  predicate LowerAt(a: string, b: string, i: nat) {
    i < |a| && i < |b| && a[..i] == b[..i] && a[i] < b[i]
  }

  /**
    The comparison as section 7.2.13 of ECMA-262 states it: `a < b` when `a`
    is a proper prefix of `b`, or when at the first position where they
    differ `a` holds the smaller character.
   */
  lemma {:induction false} LexLessFirstDifference(a: string, b: string)
    ensures LexLess(a, b) <==> ProperPrefix(a, b) || exists i: nat :: LowerAt(a, b, i)
  {
    if |a| > 0 && |b| > 0 {
      if a[0] == b[0] {
        LexLessFirstDifference(a[1..], b[1..]);
        PrefixAfterHead(a, b);
        LowerAfterHead(a, b);
      } else {
        LowerAtHead(a, b);
      }
    }
  }

  lemma PrefixAfterHead(a: string, b: string)
    requires |a| > 0 && |b| > 0 && a[0] == b[0]
    ensures ProperPrefix(a, b) <==> ProperPrefix(a[1..], b[1..])
  {
    if |a| < |b| {
      assert a == [a[0]] + a[1..];
      assert b[..|a|] == [b[0]] + b[1..][..|a| - 1];
    }
  }

  lemma LowerAfterHead(a: string, b: string)
    requires |a| > 0 && |b| > 0 && a[0] == b[0]
    ensures (exists i: nat :: LowerAt(a, b, i)) <==> (exists i: nat :: LowerAt(a[1..], b[1..], i))
  {
    if exists i: nat :: LowerAt(a[1..], b[1..], i) {
      var i: nat :| LowerAt(a[1..], b[1..], i);
      assert a[..i + 1] == [a[0]] + a[1..][..i] && b[..i + 1] == [b[0]] + b[1..][..i];
      assert LowerAt(a, b, i + 1);
    }
    if exists i: nat :: LowerAt(a, b, i) {
      var i: nat :| LowerAt(a, b, i);
      assert a[..0] == b[..0];
      assert i > 0;
      assert a[1..][..i - 1] == a[..i][1..] && b[1..][..i - 1] == b[..i][1..];
      assert LowerAt(a[1..], b[1..], i - 1);
    }
  }

  lemma LowerAtHead(a: string, b: string)
    requires |a| > 0 && |b| > 0 && a[0] != b[0]
    ensures (exists i: nat :: LowerAt(a, b, i)) <==> a[0] < b[0]
    ensures !ProperPrefix(a, b)
  {
    if a[0] < b[0] {
      assert a[..0] == b[..0];
      assert LowerAt(a, b, 0);
    }
    if |a| < |b| {
      assert b[..|a|][0] == b[0];
    }
  }

  lemma {:induction false} LexLessIrreflexive(a: string)
    ensures !LexLess(a, a)
  {
    if |a| > 0 {
      LexLessIrreflexive(a[1..]);
    }
  }

  lemma {:induction false} LexLessTransitive(a: string, b: string, c: string)
    requires LexLess(a, b) && LexLess(b, c)
    ensures LexLess(a, c)
  {
    if |a| > 0 && |b| > 0 && |c| > 0 && a[0] == b[0] && b[0] == c[0] {
      LexLessTransitive(a[1..], b[1..], c[1..]);
    }
  }

  /** Two different strings are always ordered one way or the other. */
  lemma {:induction false} LexLessTotal(a: string, b: string)
    requires a != b
    ensures LexLess(a, b) || LexLess(b, a)
  {
    if |a| > 0 && |b| > 0 && a[0] == b[0] {
      assert a == [a[0]] + a[1..] && b == [b[0]] + b[1..];
      LexLessTotal(a[1..], b[1..]);
    }
  }
}
