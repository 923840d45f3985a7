/** Python's `str.join` and `str.split` on a one-character separator: the
    character grid is assembled with `"\n".join(rows)` and taken apart again
    with `text.split("\n")`; the pixel characters are glued with `"".join`. */
module TextLines {

  /** The number of characters in all the parts together. */
  function TotalLength(parts: seq<string>): nat
    decreases |parts|
  {
    if |parts| == 0 then 0 else |parts[0]| + TotalLength(parts[1..])
  }

  /** `sep.join(parts)`: the parts with one copy of `sep` between neighbours.
      With the two separators the program uses, `""` and one character, the
      text is as long as the parts together, plus one for every part after
      the first. */
  function Join(sep: string, parts: seq<string>): (r: string)
    ensures |parts| == 0 ==> r == ""
    ensures |sep| == 0 ==> |r| == TotalLength(parts)
    ensures |sep| == 1 && |parts| >= 1 ==> |r| == TotalLength(parts) + |parts| - 1
    decreases |parts|
  {
    if |parts| == 0 then ""
    else if |parts| == 1 then parts[0]
    else
      parts[0] + sep + Join(sep, parts[1..])
  }

  /** A join holds only characters of the separator and of the parts: every
      character is in `alphabet` when theirs are. */
  lemma {:induction false} JoinWithin(sep: string, parts: seq<string>, alphabet: string)
    requires forall i :: 0 <= i < |sep| ==> sep[i] in alphabet
    requires forall k, c :: 0 <= k < |parts| && c in parts[k] ==> c in alphabet
    ensures forall i :: 0 <= i < |Join(sep, parts)| ==> Join(sep, parts)[i] in alphabet
    decreases |parts|
  {
    if |parts| >= 2 {
      JoinWithin(sep, parts[1..], alphabet);
      var rest := Join(sep, parts[1..]);
      var r := parts[0] + sep + rest;
      forall i | 0 <= i < |r| ensures r[i] in alphabet {
        if i < |parts[0]| {
          assert r[i] in parts[0];
        } else if i >= |parts[0]| + |sep| {
          assert r[i] == rest[i - |parts[0]| - |sep|];
        }
      }
    } else if |parts| == 1 {
      assert forall i :: 0 <= i < |parts[0]| ==> parts[0][i] in parts[0];
    }
  }

  /** `s.split(sep)` for a one-character separator: the separator-free pieces
      between separators. Even the empty text has one (empty) piece. */
  function Split(s: string, sep: char): (r: seq<string>)
    ensures |r| >= 1
    ensures forall k :: 0 <= k < |r| ==> sep !in r[k]
    decreases |s|
  {
    if |s| == 0 then [""]
    else
      var rest := Split(s[1..], sep);
      if s[0] == sep then [""] + rest
      else [[s[0]] + rest[0]] + rest[1..]
  }

  /** There is exactly one piece more than there are separators. */
  lemma {:induction false} SplitPieceCount(s: string, sep: char)
    ensures |Split(s, sep)| == multiset(s)[sep] + 1
    decreases |s|
  {
    if |s| > 0 {
      SplitPieceCount(s[1..], sep);
      assert s == [s[0]] + s[1..];
    }
  }

  /** Joining behaves like appending at the end: this is what the
      quantization loop relies on when it appends one character at a time. */
  lemma {:induction false} JoinSnoc(sep: string, parts: seq<string>, x: string)
    ensures Join(sep, parts + [x]) == if parts == [] then x else Join(sep, parts) + sep + x
    decreases |parts|
  {
    if |parts| >= 2 {
      assert (parts + [x])[1..] == parts[1..] + [x];
      JoinSnoc(sep, parts[1..], x);
    } else if |parts| == 1 {
      assert (parts + [x])[1..] == [x];
    }
  }

  /** Joining after putting one part in front. */
  lemma JoinCons(sep: string, x: string, parts: seq<string>)
    ensures Join(sep, [x] + parts) == if parts == [] then x else x + sep + Join(sep, parts)
  {
    assert ([x] + parts)[1..] == parts;
  }

  /** A text without the separator splits into itself alone. */
  lemma {:induction false} SplitWithoutSeparator(s: string, sep: char)
    requires sep !in s
    ensures Split(s, sep) == [s]
    decreases |s|
  {
    if |s| > 0 {
      SplitWithoutSeparator(s[1..], sep);
      assert [s[0]] + s[1..] == s;
    }
  }

  /** A separator-free piece followed by one separator splits off as the
      first piece. */
  lemma {:induction false} SplitAfterPiece(p: string, sep: char, t: string)
    requires sep !in p
    ensures Split(p + [sep] + t, sep) == [p] + Split(t, sep)
    decreases |p|
  {
    var s := p + [sep] + t;
    if |p| == 0 {
      assert s[1..] == t;
    } else {
      assert s[1..] == p[1..] + [sep] + t;
      SplitAfterPiece(p[1..], sep, t);
      assert [p[0]] + p[1..] == p;
    }
  }

  /** Splitting undoes joining when no part holds the separator; the one
      exception is the empty list, whose join `""` splits into `[""]`. */
  lemma {:induction false} SplitJoin(sep: char, parts: seq<string>)
    requires forall k :: 0 <= k < |parts| ==> sep !in parts[k]
    ensures Split(Join([sep], parts), sep) == if parts == [] then [""] else parts
    decreases |parts|
  {
    if |parts| == 1 {
      SplitWithoutSeparator(parts[0], sep);
    } else if |parts| >= 2 {
      SplitJoin(sep, parts[1..]);
      SplitAfterPiece(parts[0], sep, Join([sep], parts[1..]));
      assert [parts[0]] + parts[1..] == parts;
    }
  }

  /** Putting a non-separator in front of the first piece puts it in front
      of the join. */
  lemma {:induction false} JoinExtendFirst(c: char, sep: char, rest: seq<string>)
    requires |rest| >= 1
    ensures Join([sep], [[c] + rest[0]] + rest[1..]) == [c] + Join([sep], rest)
  {
    if |rest| == 1 {
      assert [[c] + rest[0]] + rest[1..] == [[c] + rest[0]];
    } else {
      JoinExtendLonger(c, sep, rest[0], rest[1..]);
      assert [rest[0]] + rest[1..] == rest;
    }
  }

  lemma {:induction false} JoinExtendLonger(c: char, sep: char, first: string, tail: seq<string>)
    requires |tail| >= 1
    ensures Join([sep], [[c] + first] + tail) == [c] + Join([sep], [first] + tail)
  {
    var t := Join([sep], tail);
    var longer, shorter := [[c] + first] + tail, [first] + tail;
    assert longer[1..] == tail && shorter[1..] == tail;
    assert Join([sep], longer) == ([c] + first) + [sep] + t;
    assert Join([sep], shorter) == first + [sep] + t;
    assert ([c] + first) + [sep] + t == [c] + (first + [sep] + t);
  }

  /** Joining undoes splitting, for every text. */
  lemma {:induction false} JoinSplit(s: string, sep: char)
    ensures Join([sep], Split(s, sep)) == s
    decreases |s|
  {
    if |s| > 0 {
      var rest := Split(s[1..], sep);
      JoinSplit(s[1..], sep);
      if s[0] == sep {
        JoinCons([sep], "", rest);
      } else {
        JoinExtendFirst(s[0], sep, rest);
      }
      assert [s[0]] + s[1..] == s;
    }
  }
}
