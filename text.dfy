/** String comparison and matching as the store's queries apply them:
    ordinal ordering for sort descriptors, and case- and
    diacritic-insensitive prefix and substring matching. */
module Text {
  import opened Entries

  /** Ordinal (character-code) lexicographic order, the order a sort
      descriptor on a string attribute yields. */
  predicate LexLeq(a: string, b: string)
  {
    |a| == 0 || (|b| > 0 && (a[0] < b[0] || (a[0] == b[0] && LexLeq(a[1..], b[1..]))))
  }

  lemma {:induction false} LexLeqTotal(a: string, b: string)
    ensures LexLeq(a, b) || LexLeq(b, a)
  {
    if |a| > 0 && |b| > 0 && a[0] == b[0] {
      LexLeqTotal(a[1..], b[1..]);
    }
  }

  lemma {:induction false} LexLeqTransitive(a: string, b: string, c: string)
    requires LexLeq(a, b) && LexLeq(b, c)
    ensures LexLeq(a, c)
  {
    if |a| > 0 && |b| > 0 && |c| > 0 && a[0] == b[0] && b[0] == c[0] {
      LexLeqTransitive(a[1..], b[1..], c[1..]);
    }
  }

  lemma {:induction false} LexLeqAntisymmetric(a: string, b: string)
    requires LexLeq(a, b) && LexLeq(b, a)
    ensures a == b
  {
    if |a| > 0 {
      LexLeqAntisymmetric(a[1..], b[1..]);
      assert a == [a[0]] + a[1..];
      assert b == [b[0]] + b[1..];
    }
  }

  /** Folds one character for comparison: ASCII and Latin-1 letters are
      lower-cased, and Latin-1 letters that carry a diacritic lose it. */
  function Fold(c: char): char
  {
    if 'A' <= c <= 'Z' then (c as int + 32) as char
    else if 'À' <= c <= 'Å' || 'à' <= c <= 'å' then 'a'
    else if c == 'Ç' || c == 'ç' then 'c'
    else if 'È' <= c <= 'Ë' || 'è' <= c <= 'ë' then 'e'
    else if 'Ì' <= c <= 'Ï' || 'ì' <= c <= 'ï' then 'i'
    else if c == 'Ñ' || c == 'ñ' then 'n'
    else if 'Ò' <= c <= 'Ö' || 'ò' <= c <= 'ö' then 'o'
    else if 'Ù' <= c <= 'Ü' || 'ù' <= c <= 'ü' then 'u'
    else if c == 'Ý' || c == 'ý' || c == 'ÿ' then 'y'
    else if c == 'Æ' || c == 'Ð' || c == 'Ø' || c == 'Þ' then (c as int + 32) as char
    else c
  }

  lemma FoldIdempotent(c: char)
    ensures Fold(Fold(c)) == Fold(c)
  {
  }

  /** Folds every character; folding keeps positions, so a range found in
      the folded text is a range of the original text. */
  function FoldString(s: string): (r: string)
    ensures |r| == |s|
    ensures forall i | 0 <= i < |s| :: r[i] == Fold(s[i])
  {
    seq(|s|, i requires 0 <= i < |s| => Fold(s[i]))
  }

  predicate HasPrefix(s: string, p: string)
  {
    |p| <= |s| && s[..|p|] == p
  }

  /** `s BEGINSWITH[cd] q`: the folded `s` starts with the folded `q`. */
  predicate BeginsWithFolded(s: string, q: string)
  {
    HasPrefix(FoldString(s), FoldString(q))
  }

  /** Folding the query first changes nothing: the match is insensitive
      to the query's own case and diacritics. */
  lemma FoldedQueryMatchesAlike(s: string, q: string)
    ensures BeginsWithFolded(s, q) <==> BeginsWithFolded(s, FoldString(q))
  {
    forall i | 0 <= i < |q|
      ensures FoldString(FoldString(q))[i] == FoldString(q)[i]
    {
      FoldIdempotent(q[i]);
    }
    assert FoldString(FoldString(q)) == FoldString(q);
  }

  /** Matching is exactly a character-wise comparison after folding. */
  lemma BeginsWithFoldedAt(s: string, q: string)
    ensures BeginsWithFolded(s, q) <==>
      (|q| <= |s| && forall i | 0 <= i < |q| :: Fold(s[i]) == Fold(q[i]))
  {
    if |q| <= |s| && forall i | 0 <= i < |q| :: Fold(s[i]) == Fold(q[i]) {
      assert FoldString(s)[..|q|] == FoldString(q);
    }
  }

  /** The empty query is a prefix of every headword. */
  lemma EmptyQueryMatchesAll(s: string)
    ensures BeginsWithFolded(s, "")
  {
  }

  /** `p` occurs in `t` at position `i`. */
  predicate OccursAt(t: string, p: string, i: nat)
  {
    i + |p| <= |t| && t[i..i + |p|] == p
  }

  /** The first position at or after `from` where `p` occurs in `t`. */
  function FindFrom(t: string, p: string, from: nat): (r: Option<nat>)
    decreases |t| - from
    ensures r.Some? ==> from <= r.value && OccursAt(t, p, r.value)
    ensures r.Some? ==> forall j | from <= j < r.value :: !OccursAt(t, p, j)
    ensures r.None? ==> forall j | from <= j :: !OccursAt(t, p, j)
  {
    if from + |p| > |t| then None
    else if t[from..from + |p|] == p then Some(from)
    else FindFrom(t, p, from + 1)
  }
}
