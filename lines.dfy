/**
 * Text helpers shared by the two zfs scripts: Python 2's `str.split(sep)`,
 * its inverse `sep.join`, the first-occurrence search behind
 * `str.split(sep, 1)`, and the empty-line filter applied to listing output.
 */
module Lines {

  /** Index of the first `c` in `s`, or `|s|` when `s` has none. */
  function IndexOf(s: string, c: char): (i: nat)
    ensures i <= |s|
    ensures i < |s| ==> s[i] == c
    ensures forall j :: 0 <= j < i ==> s[j] != c
  {
    if |s| == 0 then 0
    else if s[0] == c then 0
    else 1 + IndexOf(s[1..], c)
  }

  /** `s.split(sep)`: the maximal pieces between separators, empty pieces included. */
  function Split(s: string, sep: char): (r: seq<string>)
    ensures |r| >= 1
    ensures forall i :: 0 <= i < |r| ==> sep !in r[i]
    ensures forall p :: p in r ==> sep !in p
  {
    if |s| == 0 then [""]
    else
      var rest := Split(s[1..], sep);
      if s[0] == sep then [""] + rest
      else [[s[0]] + rest[0]] + rest[1..]
  }

  /** `sep.join(parts)`. */
  function Join(parts: seq<string>, sep: char): string
    requires |parts| >= 1
  {
    if |parts| == 1 then parts[0]
    else parts[0] + [sep] + Join(parts[1..], sep)
  }

  /** Joining the pieces of a split gives the original text back. */
  lemma {:induction false} JoinSplit(s: string, sep: char)
    ensures Join(Split(s, sep), sep) == s
  {
    if |s| > 0 {
      var rest := Split(s[1..], sep);
      JoinSplit(s[1..], sep);
      if s[0] == sep {
        assert Split(s, sep) == [""] + rest;
        assert ([""] + rest)[1..] == rest;
      } else {
        var r := Split(s, sep);
        assert r == [[s[0]] + rest[0]] + rest[1..];
        if |rest| == 1 {
          assert Join(r, sep) == [s[0]] + rest[0];
        } else {
          assert r[1..] == rest[1..];
          assert Join(rest, sep) == rest[0] + [sep] + Join(rest[1..], sep);
          assert Join(r, sep) == [s[0]] + rest[0] + [sep] + Join(rest[1..], sep);
        }
        assert [s[0]] + s[1..] == s;
      }
    }
  }

  /** Splitting a join of separator-free pieces gives exactly those pieces back. */
  lemma {:induction false} SplitJoin(parts: seq<string>, sep: char)
    requires |parts| >= 1
    requires forall i :: 0 <= i < |parts| ==> sep !in parts[i]
    ensures Split(Join(parts, sep), sep) == parts
  {
    if |parts| == 1 {
      SplitPrefix(parts[0], [], sep);
      assert parts[0] + [] == parts[0];
    } else {
      SplitJoin(parts[1..], sep);
      SplitPiece(parts[0], Join(parts[1..], sep), sep);
      assert [parts[0]] + parts[1..] == parts;
    }
  }

  /** A separator-free `p` glued in front of `tail` joins its first piece. */
  lemma {:induction false} SplitPrefix(p: string, tail: string, sep: char)
    requires sep !in p
    ensures Split(p + tail, sep) ==
            [p + Split(tail, sep)[0]] + Split(tail, sep)[1..]
  {
    var t := Split(tail, sep);
    if |p| == 0 {
      assert p + tail == tail;
      assert p + t[0] == t[0];
      assert [t[0]] + t[1..] == t;
    } else {
      SplitPrefix(p[1..], tail, sep);
      var s := p + tail;
      assert s[0] == p[0] && s[1..] == p[1..] + tail;
      var rest := Split(s[1..], sep);
      assert rest == [p[1..] + t[0]] + t[1..];
      assert Split(s, sep) == [[p[0]] + rest[0]] + rest[1..];
      assert [p[0]] + (p[1..] + t[0]) == p + t[0];
    }
  }

  /** With a separator after it, a separator-free `p` becomes a piece of its own. */
  lemma SplitPiece(p: string, tail: string, sep: char)
    requires sep !in p
    ensures Split(p + [sep] + tail, sep) == [p] + Split(tail, sep)
  {
    var s := [sep] + tail;
    assert s[1..] == tail;
    assert Split(s, sep) == [""] + Split(tail, sep);
    SplitPrefix(p, s, sep);
    assert p + [sep] + tail == p + s;
    assert p + "" == p;
  }

  /** The three parts of a concatenation can be cut back out of it. */
  lemma SliceThree(a: string, x: string, b: string)
    ensures |a + x + b| == |a| + |x| + |b|
    ensures (a + x + b)[..|a|] == a
    ensures (a + x + b)[|a|..|a| + |x|] == x
    ensures (a + x + b)[|a| + |x|..] == b
  {
  }

  /** The list comprehension `[x for x in lines if x != '']`. */
  function NonEmpty(lines: seq<string>): (r: seq<string>)
    ensures |r| <= |lines|
    ensures forall x :: x in r <==> x in lines && x != ""
  {
    if |lines| == 0 then []
    else if lines[0] == "" then NonEmpty(lines[1..])
    else [lines[0]] + NonEmpty(lines[1..])
  }

  /** The filter keeps the order of what it keeps: it distributes over concatenation. */
  lemma {:induction false} NonEmptyAppend(a: seq<string>, b: seq<string>)
    ensures NonEmpty(a + b) == NonEmpty(a) + NonEmpty(b)
  {
    if |a| > 0 {
      NonEmptyAppend(a[1..], b);
      assert (a + b)[1..] == a[1..] + b;
    } else {
      assert a + b == b;
    }
  }

  /** A list without empty strings passes the filter unchanged. */
  lemma {:induction false} NonEmptyKeepsNonEmpty(lines: seq<string>)
    requires forall i :: 0 <= i < |lines| ==> lines[i] != ""
    ensures NonEmpty(lines) == lines
  {
    if |lines| > 0 {
      NonEmptyKeepsNonEmpty(lines[1..]);
      assert [lines[0]] + lines[1..] == lines;
    }
  }
}
