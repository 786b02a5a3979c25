/** The log file's text format: entries are the pieces of the file content between
    newline characters. */
module Lines {
  import opened Wrappers

  const Separator: char := '\n'

  /** A string that fits on one line of the log file. */
  predicate IsLine(s: string)
  {
    Separator !in s
  }

  predicate AllLines(xs: seq<string>)
  {
    forall i :: 0 <= i < |xs| ==> IsLine(xs[i])
  }

  /** Position of the first separator in `s`, if any. */
  function FirstSeparator(s: string): (r: Option<nat>)
    ensures r.None? <==> IsLine(s)
    ensures r.Some? ==> r.value < |s| && s[r.value] == Separator && IsLine(s[..r.value])
  {
    if |s| == 0 then None
    else if s[0] == Separator then Some(0)
    else
      match FirstSeparator(s[1..])
      case None => None
      case Some(i) =>
        assert s[..i + 1] == [s[0]] + s[1..][..i];
        Some(i + 1)
  }

  /** `components(separatedBy: "\n")`: the maximal separator-free pieces of `s`, in order.
      There is always at least one piece; the empty string has the single piece "". */
  function Split(s: string): (r: seq<string>)
    ensures |r| >= 1
    ensures AllLines(r)
    ensures |r| == 1 <==> IsLine(s)
    decreases |s|
  {
    match FirstSeparator(s)
    case None => [s]
    case Some(i) => [s[..i]] + Split(s[i + 1..])
  }

  /** `joined(separator: "\n")`: the pieces with one separator between neighbours. The text
      starts with the first piece, and joining one-line pieces yields a text with a
      separator in it exactly when there are two or more pieces. */
  function Join(xs: seq<string>): (r: string)
    ensures |xs| >= 1 ==> xs[0] <= r
    ensures AllLines(xs) ==> (IsLine(r) <==> |xs| <= 1)
  {
    if |xs| == 0 then ""
    else if |xs| == 1 then xs[0]
    else
      var r := xs[0] + [Separator] + Join(xs[1..]);
      assert r[|xs[0]|] == Separator;
      r
  }

  /** `_stringToList`: a missing or zero-length content is the empty list; any other content
      is its split into lines. */
  function StringToList(contents: Option<string>): (r: seq<string>)
    ensures AllLines(r)
    ensures r == [] <==> contents.None? || |contents.value| == 0
    ensures r != [] ==> Join(r) == contents.value
  {
    if contents.Some? && |contents.value| > 0 then
      JoinSplit(contents.value);
      Split(contents.value)
    else []
  }

  /** What reading back a file written from `xs` yields: a lone empty line is written as
      the empty file, which reads back as no lines at all. */
  function ReadBack(xs: seq<string>): (r: seq<string>)
    ensures |r| <= |xs|
  {
    if xs == [""] then [] else xs
  }

  /** Joining the pieces of a split restores the original text. */
  lemma {:induction false} JoinSplit(s: string)
    ensures Join(Split(s)) == s
    decreases |s|
  {
    var first := FirstSeparator(s);
    if first.Some? {
      var i := first.value;
      var head, tail := s[..i], s[i + 1..];
      JoinSplit(tail);
      assert Split(s) == [head] + Split(tail);
      JoinCons(head, Split(tail));
      SplitAt(s, i);
    }
  }

  /** A text is the part before position `i`, the character at `i`, and the part after it. */
  lemma SplitAt(s: string, i: nat)
    requires i < |s|
    ensures s == s[..i] + [s[i]] + s[i + 1..]
  {
  }

  /** Joining a leading line onto one or more further lines puts one separator between them. */
  lemma JoinCons(x: string, rest: seq<string>)
    requires |rest| >= 1
    ensures Join([x] + rest) == x + [Separator] + Join(rest)
  {
    assert ([x] + rest)[1..] == rest;
  }

  /** In a joined text whose first piece is one line, the first separator ends that piece. */
  lemma FirstSeparatorOfJoin(x: string, rest: string)
    requires IsLine(x)
    ensures FirstSeparator(x + [Separator] + rest) == Some(|x|)
  {
    var s := x + [Separator] + rest;
    assert s[|x|] == Separator;
    var r := FirstSeparator(s);
    assert forall j :: 0 <= j < |x| ==> s[j] == x[j];
    assert forall j :: 0 <= j < r.value ==> s[..r.value][j] == s[j];
  }

  /** Splitting a join of one or more lines gives the lines back. */
  lemma {:induction false} SplitJoin(xs: seq<string>)
    requires |xs| >= 1 && AllLines(xs)
    ensures Split(Join(xs)) == xs
  {
    if |xs| > 1 {
      var s := Join(xs);
      var x := xs[0];
      FirstSeparatorOfJoin(x, Join(xs[1..]));
      assert s[..|x|] == x;
      assert s[|x| + 1..] == Join(xs[1..]);
      SplitJoin(xs[1..]);
      assert xs == [x] + xs[1..];
    } else {
      assert IsLine(xs[0]);
    }
  }

  /** Joining one more piece onto one or more pieces adds a separator and that piece. */
  lemma {:induction false} JoinSnoc(xs: seq<string>, e: string)
    requires |xs| >= 1
    ensures Join(xs + [e]) == Join(xs) + [Separator] + e
  {
    if |xs| > 1 {
      var x, rest := xs[0], xs[1..];
      assert (xs + [e])[1..] == rest + [e];
      assert Join(xs + [e]) == x + [Separator] + Join(rest + [e]);
      JoinSnoc(rest, e);
      assert Join(xs) == x + [Separator] + Join(rest);
    }
  }

  /** A separator in `s` is found before anything appended to `s` is looked at. */
  lemma {:induction false} FirstSeparatorPrefix(s: string, u: string)
    requires !IsLine(s)
    ensures FirstSeparator(s + u) == FirstSeparator(s)
    decreases |s|
  {
    if s[0] != Separator {
      assert (s + u)[1..] == s[1..] + u;
      FirstSeparatorPrefix(s[1..], u);
    }
  }

  /** Splitting at a known first separator. */
  lemma SplitUnfold(u: string, i: nat)
    requires FirstSeparator(u) == Some(i)
    ensures Split(u) == [u[..i]] + Split(u[i + 1..])
  {
  }

  /** Splitting two texts joined by a separator splits each of them. */
  lemma {:induction false} SplitAround(s: string, t: string)
    ensures Split(s + [Separator] + t) == Split(s) + Split(t)
    decreases |s|
  {
    if IsLine(s) {
      SplitAroundLine(s, t);
    } else {
      var i := FirstSeparator(s).value;
      SplitAround(s[i + 1..], t);
      SplitAroundStep(s, t, i);
    }
  }

  /** The inductive step of `SplitAround`: the first piece of `s` is split off first. */
  lemma SplitAroundStep(s: string, t: string, i: nat)
    requires FirstSeparator(s) == Some(i)
    requires Split(s[i + 1..] + [Separator] + t) == Split(s[i + 1..]) + Split(t)
    ensures Split(s + [Separator] + t) == Split(s) + Split(t)
  {
    var u := s + [Separator] + t;
    var head, rest, after := s[..i], Split(s[i + 1..]), Split(t);
    assert Split(u) == [head] + (rest + after) by {
      SeparatorInside(s, t, i);
      SplitUnfold(u, i);
    }
    assert Split(s) == [head] + rest by {
      SplitUnfold(s, i);
    }
    ConcatAssoc([head], rest, after);
  }

  /** Concatenation is associative. */
  lemma ConcatAssoc<T>(a: seq<T>, b: seq<T>, c: seq<T>)
    ensures a + (b + c) == (a + b) + c
  {
  }

  /** The base case of `SplitAround`: a first piece without a separator. */
  lemma SplitAroundLine(s: string, t: string)
    requires IsLine(s)
    ensures Split(s + [Separator] + t) == Split(s) + Split(t)
  {
    var u := s + [Separator] + t;
    FirstSeparatorOfJoin(s, t);
    assert u[..|s|] == s;
    assert u[|s| + 1..] == t;
    SplitUnfold(u, |s|);
  }

  /** When `s` has its first separator at `i`, so does `s` followed by a separator and `t`,
      and the rest after it is the rest of `s` followed by the separator and `t`. */
  lemma SeparatorInside(s: string, t: string, i: nat)
    requires FirstSeparator(s) == Some(i)
    ensures FirstSeparator(s + [Separator] + t) == Some(i)
    ensures (s + [Separator] + t)[..i] == s[..i]
    ensures (s + [Separator] + t)[i + 1..] == s[i + 1..] + [Separator] + t
  {
    assert s + [Separator] + t == s + ([Separator] + t);
    FirstSeparatorPrefix(s, [Separator] + t);
  }

  /** The joined text is empty exactly for no lines or one empty line. */
  lemma JoinIsEmpty(xs: seq<string>)
    ensures |Join(xs)| == 0 <==> xs == [] || xs == [""]
  {
    if |xs| > 1 {
      assert |Join(xs)| >= 1;
    }
  }

  /** Converting lines to content and back gives `ReadBack(xs)`: the lines themselves,
      except that a lone empty line disappears. */
  lemma ListRoundTrip(xs: seq<string>)
    ensures AllLines(xs) ==> StringToList(Some(Join(xs))) == ReadBack(xs)
  {
    JoinIsEmpty(xs);
    if |xs| > 0 && xs != [""] && AllLines(xs) {
      SplitJoin(xs);
    }
  }
}
