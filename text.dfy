/**
 Text operations the bot relies on, with JavaScript's semantics:
 `String.prototype.split` on a one-character separator, `Array.prototype.join`
 and `String.prototype.startsWith`.
 */
module Text {

  /** `s.split(sep)` for a one-character separator: every occurrence of `sep`
      ends a piece, so two separators in a row give an empty piece, and the
      result always has at least one piece. */
  function Split(s: string, sep: char): (r: seq<string>)
    ensures |r| >= 1
    ensures forall i :: 0 <= i < |r| ==> sep !in r[i]
  {
    if s == [] then [""]
    else
      var rest := Split(s[1..], sep);
      if s[0] == sep then [""] + rest
      else [[s[0]] + rest[0]] + rest[1..]
  }

  /** `parts.join(sep)`: the pieces with `sep` between consecutive ones. */
  function Join(parts: seq<string>, sep: string): (r: string)
    ensures |parts| >= 1 ==> StartsWith(r, parts[0])
    ensures r == "" ==> forall i :: 0 <= i < |parts| ==> parts[i] == ""
  {
    if |parts| == 0 then ""
    else if |parts| == 1 then parts[0]
    else parts[0] + sep + Join(parts[1..], sep)
  }

  /** `s.startsWith(p)`: exact match of the first |p| characters. */
  predicate StartsWith(s: string, p: string)
    ensures StartsWith(s, p) <==> exists t :: s == p + t
  {
    assert |p| <= |s| ==> s == s[..|p|] + s[|p|..];
    assert forall t :: s == p + t ==> s[..|p|] == p;
    |p| <= |s| && s[..|p|] == p
  }

  /** Joining the pieces of a split with the same separator gives back the
      original text. */
  lemma {:induction false} JoinSplit(s: string, sep: char)
    ensures Join(Split(s, sep), [sep]) == s
  {
    if s != [] {
      var rest := Split(s[1..], sep);
      JoinSplit(s[1..], sep);
      if s[0] == sep {
        assert Split(s, sep) == [""] + rest;
        assert ([""] + rest)[1..] == rest;
      } else {
        var parts := Split(s, sep);
        assert parts == [[s[0]] + rest[0]] + rest[1..];
        if |rest| == 1 {
          assert Join(rest, [sep]) == rest[0];
        } else {
          assert Join(rest, [sep]) == rest[0] + [sep] + Join(rest[1..], [sep]);
          assert parts[1..] == rest[1..];
        }
      }
    }
  }

  /** Splitting a join of separator-free pieces gives back those pieces:
      together with JoinSplit, Split is a bijection between texts and
      non-empty sequences of separator-free pieces. */
  lemma {:induction false} SplitJoin(parts: seq<string>, sep: char)
    requires |parts| >= 1
    requires forall i :: 0 <= i < |parts| ==> sep !in parts[i]
    ensures Split(Join(parts, [sep]), sep) == parts
  {
    if |parts| == 1 {
      SplitFree(parts[0], sep);
    } else {
      SplitJoin(parts[1..], sep);
      SplitPiece(parts[0], Join(parts[1..], [sep]), sep);
      assert [parts[0]] + parts[1..] == parts;
    }
  }

  /** A text without the separator is a single piece. */
  lemma {:induction false} SplitFree(w: string, sep: char)
    requires sep !in w
    ensures Split(w, sep) == [w]
  {
    if w != [] {
      SplitFree(w[1..], sep);
      assert [w[0]] + w[1..] == w;
    }
  }

  /** A separator-free word followed by the separator is split off as the
      first piece. */
  lemma {:induction false} SplitPiece(w: string, rest: string, sep: char)
    requires sep !in w
    ensures Split(w + [sep] + rest, sep) == [w] + Split(rest, sep)
  {
    var s := w + [sep] + rest;
    if w == [] {
      assert s[1..] == rest;
    } else {
      assert s[1..] == w[1..] + [sep] + rest;
      SplitPiece(w[1..], rest, sep);
      assert [w[0]] + w[1..] == w;
    }
  }

  /** The joined text is empty exactly when there is nothing to join or a
      single empty piece (for a non-empty separator). */
  lemma {:induction false} JoinEmpty(parts: seq<string>, sep: string)
    requires sep != ""
    ensures Join(parts, sep) == "" <==> |parts| == 0 || (|parts| == 1 && parts[0] == "")
  {
    if |parts| > 1 {
      assert |Join(parts, sep)| >= |sep|;
    }
  }
}
