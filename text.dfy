/** Text primitives the two scripts rely on: Python's `str.split(sep)` with an
    explicit one-character separator, slicing off the last character
    (`s[:-1]`) and `readlines()` on a text-mode file; and `Join`, the inverse of
    `split`, in which the round trips of the model are stated. */
module Text {

  /** Number of occurrences of `c` in `s`. */
  function Count(s: string, c: char): (n: nat)
  {
    if s == [] then 0 else (if s[0] == c then 1 else 0) + Count(s[1..], c)
  }

  /** A character occurs a positive number of times exactly when it is in the text. */
  lemma {:induction false} CountPositive(s: string, c: char)
    ensures Count(s, c) <= |s|
    ensures Count(s, c) == 0 <==> c !in s
  {
    if s != [] {
      CountPositive(s[1..], c);
      assert s == [s[0]] + s[1..];
    }
  }

  lemma {:induction false} CountAppend(a: string, b: string, c: char)
    ensures Count(a + b, c) == Count(a, c) + Count(b, c)
  {
    if a == [] {
      assert a + b == b;
    } else {
      assert (a + b)[1..] == a[1..] + b;
      CountAppend(a[1..], b, c);
    }
  }

  /** Python's `s[:-1]`: everything but the last character; "" stays "". */
  function DropLast(s: string): (r: string)
    ensures s == [] ==> r == []
    ensures s != [] ==> |r| == |s| - 1 && r + [s[|s| - 1]] == s
  {
    if s == [] then [] else s[..|s| - 1]
  }

  /** Python's `s.split(sep)`: the pieces between occurrences of `sep`, so
      "" gives [""] and "a<sep>" gives ["a", ""]. */
  function Split(s: string, sep: char): (r: seq<string>)
    ensures |r| >= 1
  {
    if s == [] then [[]]
    else if s[0] == sep then [[]] + Split(s[1..], sep)
    else
      var rest := Split(s[1..], sep);
      [[s[0]] + rest[0]] + rest[1..]
  }

  /** Python's `sep.join(fields)` for a non-empty list of fields; neither
      script calls it, it states what `split` undoes. */
  function Join(fields: seq<string>, sep: char): (r: string)
    requires |fields| >= 1
  {
    if |fields| == 1 then fields[0] else fields[0] + [sep] + Join(fields[1..], sep)
  }

  /** A split has one piece more than there are separators. */
  lemma {:induction false} SplitCount(s: string, sep: char)
    ensures |Split(s, sep)| == Count(s, sep) + 1
  {
    if s != [] {
      SplitCount(s[1..], sep);
    }
  }

  /** No piece of a split contains the separator. */
  lemma {:induction false} SplitPiecesFree(s: string, sep: char)
    ensures forall i :: 0 <= i < |Split(s, sep)| ==> sep !in Split(s, sep)[i]
  {
    if s != [] {
      SplitPiecesFree(s[1..], sep);
    }
  }

  /** Joining the pieces of a split with the same separator restores the text. */
  lemma {:induction false} JoinSplit(s: string, sep: char)
    ensures Join(Split(s, sep), sep) == s
  {
    if s == [] {
    } else if s[0] == sep {
      JoinSplit(s[1..], sep);
      assert [[]] + Split(s[1..], sep) == Split(s, sep);
      assert Join(Split(s, sep), sep) == [] + [sep] + Join(Split(s[1..], sep), sep);
      assert [sep] + s[1..] == s;
    } else {
      var rest := Split(s[1..], sep);
      JoinSplit(s[1..], sep);
      JoinConsHead(s[0], rest, sep);
      assert [s[0]] + s[1..] == s;
    }
  }

  /** Prefixing a character to the first field prefixes it to the join. */
  lemma JoinConsHead(c: char, fields: seq<string>, sep: char)
    requires |fields| >= 1
    ensures Join([[c] + fields[0]] + fields[1..], sep) == [c] + Join(fields, sep)
  {
    var g := [[c] + fields[0]] + fields[1..];
    assert g[1..] == fields[1..];
    if |fields| > 1 {
      assert Join(g, sep) == ([c] + fields[0]) + [sep] + Join(fields[1..], sep);
    }
  }

  /** Splitting fields joined by a separator none of them contains gives the
      fields back. */
  lemma {:induction false} SplitJoin(fields: seq<string>, sep: char)
    requires |fields| >= 1
    requires forall i :: 0 <= i < |fields| ==> sep !in fields[i]
    ensures Split(Join(fields, sep), sep) == fields
  {
    if |fields| == 1 {
      SplitFree(fields[0], sep);
    } else {
      SplitJoin(fields[1..], sep);
      SplitFreePrefix(fields[0], Join(fields[1..], sep), sep);
      assert fields[0] + [sep] + Join(fields[1..], sep)
          == fields[0] + ([sep] + Join(fields[1..], sep));
      assert [fields[0]] + fields[1..] == fields;
    }
  }

  /** Text without the separator splits into itself alone. */
  lemma {:induction false} SplitFree(s: string, sep: char)
    requires sep !in s
    ensures Split(s, sep) == [s]
  {
    if s != [] {
      SplitFree(s[1..], sep);
      assert [s[0]] + s[1..] == s;
    }
  }

  /** A separator-free head followed by a separator is split off as one piece. */
  lemma {:induction false} SplitFreePrefix(a: string, b: string, sep: char)
    requires sep !in a
    ensures Split(a + ([sep] + b), sep) == [a] + Split(b, sep)
  {
    if a == [] {
      assert a + ([sep] + b) == [sep] + b;
      assert ([sep] + b)[1..] == b;
    } else {
      assert (a + ([sep] + b))[1..] == a[1..] + ([sep] + b);
      SplitFreePrefix(a[1..], b, sep);
      assert [a[0]] + a[1..] == a;
    }
  }

  /** Removing the last character of a non-empty last field removes the last
      character of the joined text. */
  lemma {:induction false} JoinDropLast(fields: seq<string>, sep: char)
    requires |fields| >= 1 && fields[|fields| - 1] != []
    ensures Join(fields[..|fields| - 1] + [DropLast(fields[|fields| - 1])], sep)
         == DropLast(Join(fields, sep))
  {
    var n := |fields|;
    var trimmed := fields[..n - 1] + [DropLast(fields[n - 1])];
    if n > 1 {
      var tail := Join(fields[1..], sep);
      JoinDropLast(fields[1..], sep);
      JoinNonEmptyLast(fields[1..], sep);
      assert trimmed[1..] == fields[1..][..n - 2] + [DropLast(fields[1..][n - 2])];
      DropLastAppend(fields[0] + [sep], tail);
    }
  }

  /** Dropping the last character of `a + b`, for non-empty `b`, drops it from `b`. */
  lemma DropLastAppend(a: string, b: string)
    requires b != []
    ensures DropLast(a + b) == a + DropLast(b)
  {
    assert (a + b)[..|a + b| - 1] == a + b[..|b| - 1];
  }

  /** A join whose last field is non-empty is non-empty. */
  lemma {:induction false} JoinNonEmptyLast(fields: seq<string>, sep: char)
    requires |fields| >= 1 && fields[|fields| - 1] != []
    ensures Join(fields, sep) != []
  {
    if |fields| > 1 {
      JoinNonEmptyLast(fields[1..], sep);
    }
  }

  /** Concatenation of a list of strings. */
  function Concat(parts: seq<string>): (r: string)
  {
    if parts == [] then [] else parts[0] + Concat(parts[1..])
  }

  lemma {:induction false} ConcatAppend(a: seq<string>, b: seq<string>)
    ensures Concat(a + b) == Concat(a) + Concat(b)
  {
    if a == [] {
      assert a + b == b;
    } else {
      assert (a + b)[1..] == a[1..] + b;
      ConcatAppend(a[1..], b);
    }
  }

  /** Python's `readlines()` on a text-mode file: the text cut after every
      "\n"; each line keeps its terminator, and the last line has none when
      the text does not end in "\n". Empty text gives no lines. */
  function SplitLines(text: string): (lines: seq<string>)
    ensures |lines| <= |text|
    ensures lines == [] <==> text == []
  {
    if text == [] then []
    else if text[0] == '\n' then [['\n']] + SplitLines(text[1..])
    else
      var rest := SplitLines(text[1..]);
      if rest == [] then [text] else [[text[0]] + rest[0]] + rest[1..]
  }

  /** The lines of `readlines()` are non-empty and together are the text. */
  lemma {:induction false} SplitLinesConcat(text: string)
    ensures Concat(SplitLines(text)) == text
    ensures forall i :: 0 <= i < |SplitLines(text)| ==> SplitLines(text)[i] != []
  {
    if text != [] {
      SplitLinesConcat(text[1..]);
      var rest := SplitLines(text[1..]);
      var lines := SplitLines(text);
      if text[0] == '\n' {
        assert lines[1..] == rest;
        assert forall i :: 1 <= i < |lines| ==> lines[i] == rest[i - 1];
        assert text == ['\n'] + text[1..];
      } else if rest == [] {
        assert text[1..] == [];
      } else {
        assert lines[0] == [text[0]] + rest[0];
        assert lines[1..] == rest[1..];
        assert forall i :: 1 <= i < |lines| ==> lines[i] == rest[i];
        assert Concat(lines) == lines[0] + Concat(rest[1..]);
        assert Concat(rest) == rest[0] + Concat(rest[1..]);
        AppendAssoc([text[0]], rest[0], Concat(rest[1..]));
        assert text == [text[0]] + text[1..];
      }
    }
  }

  /** Inside a line of `readlines()`, "\n" can only be the final character. */
  lemma {:induction false} SplitLinesInnerFree(text: string)
    ensures forall i :: 0 <= i < |SplitLines(text)| ==>
      '\n' !in DropLast(SplitLines(text)[i])
  {
    if text != [] {
      SplitLinesInnerFree(text[1..]);
      var rest := SplitLines(text[1..]);
      var lines := SplitLines(text);
      if text[0] == '\n' {
        assert lines[1..] == rest;
        forall i | 0 <= i < |lines| ensures '\n' !in DropLast(lines[i]) {
          if i > 0 {
            assert lines[i] == rest[i - 1];
          }
        }
      } else if rest == [] {
        assert text == [text[0]];
      } else {
        assert lines == [[text[0]] + rest[0]] + rest[1..];
        forall i | 0 <= i < |lines| ensures '\n' !in DropLast(lines[i]) {
          if i == 0 {
            SplitLinesConcat(text[1..]);
            assert DropLast(lines[0]) == [text[0]] + DropLast(rest[0]);
          } else {
            assert lines[i] == rest[i];
          }
        }
      }
    }
  }

  /** Every line of `readlines()` but the last ends in "\n". */
  lemma {:induction false} SplitLinesTerminated(text: string)
    ensures forall i :: 0 <= i < |SplitLines(text)| - 1 ==>
      EndsWith(SplitLines(text)[i], '\n')
  {
    if text != [] {
      SplitLinesTerminated(text[1..]);
      var rest := SplitLines(text[1..]);
      var lines := SplitLines(text);
      if text[0] == '\n' {
        assert forall i :: 1 <= i < |lines| ==> lines[i] == rest[i - 1];
      } else if rest != [] {
        SplitLinesConcat(text[1..]);
        assert lines == [[text[0]] + rest[0]] + rest[1..];
        assert forall i :: 1 <= i < |lines| ==> lines[i] == rest[i];
      }
    }
  }

  /** The last line of `readlines()` ends in the last character of the text,
      so it ends in "\n" exactly when the text does. */
  lemma {:induction false} SplitLinesLastLine(text: string)
    requires text != []
    ensures var lines := SplitLines(text);
      lines != [] && lines[|lines| - 1] != []
      && lines[|lines| - 1][|lines[|lines| - 1]| - 1] == text[|text| - 1]
  {
    var rest := SplitLines(text[1..]);
    var lines := SplitLines(text);
    if rest == [] {
      assert text[1..] == [];
      assert text == [text[0]];
      assert lines == [text];
    } else {
      SplitLinesLastLine(text[1..]);
      var tail := rest[|rest| - 1];
      assert text[|text| - 1] == text[1..][|text[1..]| - 1] == tail[|tail| - 1];
      if text[0] == '\n' {
        assert lines[|lines| - 1] == tail;
      } else if |rest| > 1 {
        assert lines[|lines| - 1] == tail;
      } else {
        assert lines == [[text[0]] + tail];
      }
    }
  }

  /** `s` is non-empty and its last character is `c`. */
  predicate EndsWith(s: string, c: char)
  {
    s != [] && s[|s| - 1] == c
  }

  /** Concatenation is associative. */
  lemma AppendAssoc<T>(a: seq<T>, b: seq<T>, c: seq<T>)
    ensures (a + b) + c == a + (b + c)
  {
  }
}
