/**
 Python's `str.join`, which builds the launch command, and a splitter on one
 separator character (Python's `str.split(sep)`) that serves as its reference
 inverse.
 */
module Text {

  /** Number of characters in all of `words` together. */
  function TotalLength(words: seq<string>): nat
  {
    if |words| == 0 then 0 else |words[0]| + TotalLength(words[1..])
  }

  /**
   `sep.join(words)`: the words in order, one `sep` between neighbours; the
   empty list joins to the empty string, any other starts with its first word.
   */
  function Join(words: seq<string>, sep: string): (r: string)
    ensures |words| == 0 ==> r == ""
    ensures |words| >= 1 ==> words[0] <= r
  {
    if |words| == 0 then ""
    else if |words| == 1 then words[0]
    else words[0] + sep + Join(words[1..], sep)
  }

  /** Joining a word in front of a list adds it and, unless the list is empty, one separator. */
  lemma JoinCons(w: string, words: seq<string>, sep: string)
    ensures Join([w] + words, sep) == if words == [] then w else w + sep + Join(words, sep)
  {
    assert ([w] + words)[1..] == words;
  }

  /** Joining three leading words and a rest, separated by `sep`. */
  lemma JoinThreeThen(a: string, b: string, c: string, rest: seq<string>, sep: string)
    ensures Join([a, b, c] + rest, sep) ==
              a + sep + b + sep + c + (if rest == [] then "" else sep + Join(rest, sep))
  {
    JoinCons(c, rest, sep);
    JoinCons(b, [c] + rest, sep);
    JoinCons(a, [b] + ([c] + rest), sep);
    assert [a, b, c] + rest == [a] + ([b] + ([c] + rest));
  }

  /**
   A join ends with the last word and is as long as all the words plus one
   separator per gap between neighbours.
   */
  lemma {:induction false} JoinShape(words: seq<string>, sep: string)
    requires |words| >= 1
    ensures |Join(words, sep)| == TotalLength(words) + (|words| - 1) * |sep|
    ensures var r := Join(words, sep);
            var last := words[|words| - 1];
            |last| <= |r| && r[|r| - |last|..] == last
    decreases |words|
  {
    if |words| > 1 {
      var rest := words[1..];
      JoinShape(rest, sep);
      assert rest[|rest| - 1] == words[|words| - 1];
      var r := Join(words, sep);
      assert r == words[0] + sep + Join(rest, sep);
      assert (|words| - 1) * |sep| == (|rest| - 1) * |sep| + |sep|;
    }
  }

  /** `s.split(sep)`: the maximal `sep`-free pieces of `s`, empty pieces kept. */
  function Split(s: string, sep: char): (r: seq<string>)
    ensures |r| >= 1
    ensures forall i :: 0 <= i < |r| ==> sep !in r[i]
    ensures Join(r, [sep]) == s
    decreases |s|
  {
    if |s| == 0 then [""]
    else
      var rest := Split(s[1..], sep);
      if s[0] == sep then
        assert s == [sep] + s[1..];
        [""] + rest
      else
        var r := [[s[0]] + rest[0]] + rest[1..];
        assert r[1..] == rest[1..];
        assert s == [s[0]] + s[1..];
        r
  }

  /** Splitting `w + t` on a separator absent from `w` glues `w` to the first piece of `t`. */
  lemma {:induction false} SplitSeparatorFreePrefix(w: string, t: string, sep: char)
    requires sep !in w
    ensures Split(w + t, sep) == [w + Split(t, sep)[0]] + Split(t, sep)[1..]
    decreases |w|
  {
    if |w| > 0 {
      assert (w + t)[1..] == w[1..] + t;
      assert (w + t)[0] == w[0];
      SplitSeparatorFreePrefix(w[1..], t, sep);
      assert [w[0]] + (w[1..] + Split(t, sep)[0]) == w + Split(t, sep)[0];
    } else {
      assert w + t == t;
      var r := Split(t, sep);
      assert r == [r[0]] + r[1..];
      assert w + r[0] == r[0];
    }
  }

  /**
   Splitting a join recovers the words, in order, when no word contains the
   separator. Together with `Split`'s own contract this makes the two inverse.
   */
  lemma {:induction false} SplitJoin(words: seq<string>, sep: char)
    requires |words| >= 1
    requires forall i :: 0 <= i < |words| ==> sep !in words[i]
    ensures Split(Join(words, [sep]), sep) == words
    decreases |words|
  {
    if |words| == 1 {
      SplitSeparatorFreePrefix(words[0], "", sep);
      assert words[0] + "" == words[0];
    } else {
      var tail := Join(words[1..], [sep]);
      SplitJoin(words[1..], sep);
      assert Join(words, [sep]) == words[0] + ([sep] + tail);
      SplitSeparatorFreePrefix(words[0], [sep] + tail, sep);
      assert ([sep] + tail)[1..] == tail;
      assert ([sep] + tail)[0] == sep;
      var r := Split([sep] + tail, sep);
      assert r == [""] + words[1..];
      assert r[0] == "" && r[1..] == words[1..];
      assert words[0] + r[0] == words[0];
      assert words == [words[0]] + words[1..];
    }
  }
}
