/**
 * JavaScript's `String.prototype.split` on a one-character separator, and
 * the joining of words with a separator that it undoes.
 */
module Text {
  /** `s.split(sep)`: the pieces between the separators; there is always at least one. */
  function Split(s: string, sep: char): (parts: seq<string>)
    ensures |parts| > 0
  {
    if s == [] then [""]
    else
      var parts := Split(s[..|s| - 1], sep);
      var c := s[|s| - 1];
      if c == sep then parts + [""] else ExtendLast(parts, c)
  }

  /** The pieces with `c` added to the end of the last one. */
  function ExtendLast(parts: seq<string>, c: char): (r: seq<string>)
    requires |parts| > 0
    ensures |r| == |parts|
  {
    parts[..|parts| - 1] + [parts[|parts| - 1] + [c]]
  }

  lemma ExtendLastOfConcat(front: seq<string>, parts: seq<string>, c: char)
    requires |parts| > 0
    ensures ExtendLast(front + parts, c) == front + ExtendLast(parts, c)
  {
    assert (front + parts)[..|front + parts| - 1] == front + parts[..|parts| - 1];
  }

  /** A text without the separator is one piece. */
  lemma {:induction false} SplitWithoutSeparator(s: string, sep: char)
    requires sep !in s
    ensures Split(s, sep) == [s]
  {
    if s != [] {
      var front := s[..|s| - 1];
      assert Split(front + [s[|s| - 1]], sep) == ExtendLast(Split(front, sep), s[|s| - 1]) by {
        SplitSnoc(front, s[|s| - 1], sep);
      }
      assert sep !in front by {
        forall i | 0 <= i < |front| ensures front[i] != sep { assert front[i] == s[i]; }
      }
      SplitWithoutSeparator(front, sep);
      assert front + [s[|s| - 1]] == s;
    }
  }

  /** The definition of `Split`, read off a text with one more character at its end. */
  lemma SplitSnoc(s: string, c: char, sep: char)
    ensures Split(s + [c], sep) == if c == sep then Split(s, sep) + [""] else ExtendLast(Split(s, sep), c)
  {
    assert (s + [c])[..|s + [c]| - 1] == s;
  }

  /** Splitting at a separator splits the two sides independently. */
  lemma {:induction false} SplitAtSeparator(a: string, b: string, sep: char)
    ensures Split(a + [sep] + b, sep) == Split(a, sep) + Split(b, sep)
    decreases |b|
  {
    if b == [] {
      assert a + [sep] + b == a + [sep];
      SplitSnoc(a, sep, sep);
    } else {
      var front, c := b[..|b| - 1], b[|b| - 1];
      var left, right := Split(a, sep), Split(front, sep);
      assert a + [sep] + b == (a + [sep] + front) + [c];
      calc {
        Split(a + [sep] + b, sep);
        { SplitSnoc(a + [sep] + front, c, sep); SplitAtSeparator(a, front, sep); }
        if c == sep then left + right + [""] else ExtendLast(left + right, c);
        { if c != sep { ExtendLastOfConcat(left, right, c); } }
        left + (if c == sep then right + [""] else ExtendLast(right, c));
        { SplitSnoc(front, c, sep); assert front + [c] == b; }
        left + Split(b, sep);
      }
    }
  }

  /** The words joined with `sep` between each two, as a template literal writes them. */
  function Join(words: seq<string>, sep: char): string
    requires |words| > 0
  {
    if |words| == 1 then words[0]
    else Join(words[..|words| - 1], sep) + [sep] + words[|words| - 1]
  }

  /** Splitting words joined by a separator none of them contains gives the words back. */
  lemma {:induction false} SplitJoin(words: seq<string>, sep: char)
    requires |words| > 0
    requires forall i :: 0 <= i < |words| ==> sep !in words[i]
    ensures Split(Join(words, sep), sep) == words
  {
    if |words| == 1 {
      SplitWithoutSeparator(words[0], sep);
    } else {
      var front := words[..|words| - 1];
      SplitJoin(front, sep);
      SplitAtSeparator(Join(front, sep), words[|words| - 1], sep);
      SplitWithoutSeparator(words[|words| - 1], sep);
    }
  }

  /** A separator-free word followed by the separator splits off as one word. */
  lemma WordThenRest(word: string, rest: string, sep: char)
    requires sep !in word
    ensures Split(word + [sep] + rest, sep) == [word] + Split(rest, sep)
  {
    SplitAtSeparator(word, rest, sep);
    SplitWithoutSeparator(word, sep);
  }

  /** Splitting around a word without the separator keeps that word whole between the two sides' pieces. */
  lemma SplitAroundWord(a: string, word: string, b: string, sep: char)
    requires sep !in word
    ensures Split(a + [sep] + word + [sep] + b, sep) == Split(a, sep) + [word] + Split(b, sep)
  {
    assert a + [sep] + word + [sep] + b == a + [sep] + (word + [sep] + b);
    SplitAtSeparator(a, word + [sep] + b, sep);
    SplitAtSeparator(word, b, sep);
    SplitWithoutSeparator(word, sep);
  }
}
