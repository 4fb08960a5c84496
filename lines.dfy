/**
 * Joining rows of text with a line break, and the inverse operation that cuts
 * a text at every line break. `Join` is the behaviour of joining a list of
 * strings with "\n" (no separator before the first or after the last row);
 * `Split` is the behaviour of splitting a string on '\n', where an empty text
 * is one empty line and a text ending in '\n' ends with an empty line.
 */
module Lines {

  const Newline: char := '\n'

  /** The rows glued together with one line break between neighbours. */
  function Join(rows: seq<string>): string
  {
    if |rows| == 0 then ""
    else if |rows| == 1 then rows[0]
    else rows[0] + [Newline] + Join(rows[1..])
  }

  /** The lines of `s`: the maximal runs of characters between line breaks. */
  function Split(s: string): (lines: seq<string>)
    ensures |lines| >= 1
  {
    if |s| == 0 then [""]
    else
      var rest := Split(s[1..]);
      if s[0] == Newline then [""] + rest
      else [[s[0]] + rest[0]] + rest[1..]
  }

  /** No row contains a line break. */
  predicate NoNewlines(rows: seq<string>) {
    forall i :: 0 <= i < |rows| ==> Newline !in rows[i]
  }

  /** The number of characters in all rows together. */
  function TotalLength(rows: seq<string>): nat
  {
    if |rows| == 0 then 0 else |rows[0]| + TotalLength(rows[1..])
  }

  /** The number of line breaks in `s`. */
  function NewlineCount(s: string): nat
  {
    multiset(s)[Newline]
  }

  lemma {:induction false} SplitLine(r: string)
    requires Newline !in r
    ensures Split(r) == [r]
  {
    if |r| > 0 {
      SplitLine(r[1..]);
      assert [r[0]] + r[1..] == r;
    }
  }

  lemma {:induction false} SplitLineThenRest(r: string, t: string)
    requires Newline !in r
    ensures Split(r + [Newline] + t) == [r] + Split(t)
  {
    var s := r + [Newline] + t;
    if |r| == 0 {
      assert s[0] == Newline && s[1..] == t;
    } else {
      SplitLineThenRest(r[1..], t);
      assert s[0] == r[0] && s[1..] == r[1..] + [Newline] + t;
      assert [r[0]] + r[1..] == r;
    }
  }

  /** Splitting joined rows gives the rows back, as long as no row holds a line break. */
  lemma {:induction false} SplitJoin(rows: seq<string>)
    requires |rows| >= 1 && NoNewlines(rows)
    ensures Split(Join(rows)) == rows
  {
    if |rows| == 1 {
      SplitLine(rows[0]);
    } else {
      SplitJoin(rows[1..]);
      SplitLineThenRest(rows[0], Join(rows[1..]));
      assert [rows[0]] + rows[1..] == rows;
    }
  }

  /** Joining the lines of any text gives the text back. */
  lemma {:induction false} JoinSplit(s: string)
    ensures Join(Split(s)) == s
  {
    if |s| > 0 {
      var rest := Split(s[1..]);
      JoinSplit(s[1..]);
      if s[0] == Newline {
        assert ([""] + rest)[1..] == rest;
        assert [s[0]] + s[1..] == s;
      } else {
        var lines := [[s[0]] + rest[0]] + rest[1..];
        assert lines[1..] == rest[1..];
        assert [s[0]] + s[1..] == s;
      }
    }
  }

  /** The joined text is as long as all rows plus one separator between each pair. */
  lemma {:induction false} JoinLength(rows: seq<string>)
    requires |rows| >= 1
    ensures |Join(rows)| == TotalLength(rows) + |rows| - 1
  {
    if |rows| > 1 {
      JoinLength(rows[1..]);
    } else {
      assert TotalLength(rows[1..]) == 0;
    }
  }

  /** Joining newline-free rows puts exactly one line break between neighbours. */
  lemma {:induction false} JoinNewlineCount(rows: seq<string>)
    requires |rows| >= 1 && NoNewlines(rows)
    ensures NewlineCount(Join(rows)) == |rows| - 1
  {
    assert Newline !in rows[0];
    if |rows| > 1 {
      JoinNewlineCount(rows[1..]);
      assert multiset(rows[0] + [Newline] + Join(rows[1..]))
          == multiset(rows[0]) + multiset([Newline]) + multiset(Join(rows[1..]));
    }
  }

  /** The joined text ends with the last row: nothing is appended after it. */
  lemma {:induction false} JoinEndsWithLastRow(rows: seq<string>)
    requires |rows| >= 1
    ensures |Join(rows)| >= |rows[|rows| - 1]|
    ensures Join(rows)[|Join(rows)| - |rows[|rows| - 1]|..] == rows[|rows| - 1]
  {
    if |rows| > 1 {
      JoinEndsWithLastRow(rows[1..]);
      assert rows[1..][|rows| - 2] == rows[|rows| - 1];
    }
  }

  /** If every row has `width` characters, all rows together have |rows| * width. */
  lemma {:induction false} TotalLengthOfGrid(rows: seq<string>, width: nat)
    requires forall i :: 0 <= i < |rows| ==> |rows[i]| == width
    ensures TotalLength(rows) == |rows| * width
  {
    if |rows| > 0 {
      TotalLengthOfGrid(rows[1..], width);
    }
  }
}
