/** The word-list writer of src/tmp3.py: the "Word" column of the normalized
    corpus, as an ordered sequence of strings, is written to a fresh text
    file, each word followed by one "\n". */
module WordList {
  import opened Text

  /** A text file opened for writing with mode 'w': it starts empty (any
      previous contents are truncated) and every `write` appends. */
  class TextFile {
    var contents: string

    constructor Create()
      ensures contents == []
    {
      contents := [];
    }

    method Write(s: string)
      modifies this
      ensures contents == old(contents) + s
    {
      contents := contents + s;
    }
  }

  /** The text the write loop produces for `words`. */
  function Serialize(words: seq<string>): (text: string)
    ensures words != [] ==> EndsWith(text, '\n')
  {
    if words == [] then []
    else Serialize(words[..|words| - 1]) + words[|words| - 1] + "\n"
  }

  /** Each word with its terminator, in order. */
  function Terminated(words: seq<string>): (lines: seq<string>)
    ensures |lines| == |words|
  {
    seq(|words|, i requires 0 <= i < |words| => words[i] + "\n")
  }

  /** Sum of the lengths of the words. */
  function TotalLength(words: seq<string>): nat
  {
    if words == [] then 0 else TotalLength(words[..|words| - 1]) + |words[|words| - 1]|
  }

  /** The write loop: open the file, write each word and then "\n". */
  method WriteWordList(words: seq<string>) returns (text: string)
    ensures text == Serialize(words)
  {
    var f := new TextFile.Create();
    for i := 0 to |words|
      invariant f.contents == Serialize(words[..i])
    {
      f.Write(words[i]);
      f.Write("\n");
      assert words[..i + 1][..i] == words[..i];
    }
    assert words[..|words|] == words;
    text := f.contents;
  }

  /** Writing two runs of words one after the other appends their texts. */
  lemma {:induction false} SerializeAppend(a: seq<string>, b: seq<string>)
    ensures Serialize(a + b) == Serialize(a) + Serialize(b)
  {
    if b == [] {
      assert a + b == a;
    } else {
      var b' := b[..|b| - 1];
      assert (a + b)[..|a + b| - 1] == a + b';
      assert (a + b)[|a + b| - 1] == b[|b| - 1];
      SerializeAppend(a, b');
      AppendAssoc(Serialize(a), Serialize(b'), b[|b| - 1] + "\n");
      AppendAssoc(Serialize(b'), b[|b| - 1], "\n");
      AppendAssoc(Serialize(a) + Serialize(b'), b[|b| - 1], "\n");
    }
  }

  /** The output is exactly the concatenation, in order, of each word
      followed by a single "\n". */
  lemma {:induction false} SerializeIsConcat(words: seq<string>)
    ensures Serialize(words) == Concat(Terminated(words))
  {
    if words != [] {
      var init := words[..|words| - 1];
      SerializeIsConcat(init);
      assert Terminated(words) == Terminated(init) + [words[|words| - 1] + "\n"];
      ConcatAppend(Terminated(init), [words[|words| - 1] + "\n"]);
      assert Concat([words[|words| - 1] + "\n"]) == words[|words| - 1] + "\n";
    }
  }

  /** No words give an empty file; otherwise the file ends in "\n", and its
      length is the total length of the words plus one per word. */
  lemma {:induction false} SerializeShape(words: seq<string>)
    ensures words == [] <==> Serialize(words) == []
    ensures words != [] ==> EndsWith(Serialize(words), '\n')
    ensures |Serialize(words)| == TotalLength(words) + |words|
  {
    if words != [] {
      SerializeShape(words[..|words| - 1]);
    }
  }

  /** Writing only appends: the text after the first i words is a prefix of
      the final text. */
  lemma SerializePrefix(words: seq<string>, i: nat)
    requires i <= |words|
    ensures Serialize(words[..i]) <= Serialize(words)
  {
    assert words == words[..i] + words[i..];
    SerializeAppend(words[..i], words[i..]);
  }

  /** When no word contains "\n", the text holds exactly one "\n" per word. */
  lemma {:induction false} SerializeNewlineCount(words: seq<string>)
    requires forall i :: 0 <= i < |words| ==> '\n' !in words[i]
    ensures Count(Serialize(words), '\n') == |words|
  {
    if words != [] {
      var init, last := words[..|words| - 1], words[|words| - 1];
      SerializeNewlineCount(init);
      CountAppend(Serialize(init), last, '\n');
      CountAppend(Serialize(init) + last, "\n", '\n');
      CountPositive(last, '\n');
    }
  }

  /** The text is the words and a final empty piece joined by "\n". */
  lemma {:induction false} SerializeAsJoin(words: seq<string>)
    ensures Serialize(words) == Join(words + [[]], '\n')
  {
    if words != [] {
      var rest := words[1..];
      SerializeAsJoin(rest);
      SerializeAppend([words[0]], rest);
      assert [words[0]] + rest == words;
      assert [words[0]][..0] == [];
      assert Serialize([words[0]]) == words[0] + "\n";
      assert (words + [[]])[1..] == rest + [[]];
    }
  }

  /** Reading the text back by splitting on "\n" gives one piece per word,
      equal to that word, and a final empty piece; dropping that piece
      recovers the word sequence. */
  lemma SerializeRoundTrip(words: seq<string>)
    requires forall i :: 0 <= i < |words| ==> '\n' !in words[i]
    ensures var pieces := Split(Serialize(words), '\n');
      && |pieces| == |words| + 1
      && pieces[|words|] == []
      && pieces[..|words|] == words
  {
    var fields := words + [[]];
    assert forall i :: 0 <= i < |fields| ==> '\n' !in fields[i];
    SerializeAsJoin(words);
    SplitJoin(fields, '\n');
  }

  /** Two words are written as two lines. */
  lemma ExampleTwoWords()
    ensures Serialize(["cat", "dog"]) == "cat\ndog\n"
  {
    assert ["cat", "dog"][..1] == ["cat"];
    assert ["cat"][..0] == [];
  }
}
