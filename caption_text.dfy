/**
 * The text of a caption: every recognised word's punctuated form, falling
 * back to its raw form, joined by single spaces, as
 * `words.map(w => w.punctuated_word ?? w.word).join(" ")` builds it.
 */
module CaptionText {
  import opened Wrappers

  /** A recognised word; `punctuatedWord` is None when the recogniser sent none. */
  datatype Word = Word(word: string, punctuatedWord: Option<string>)

  /** The text a word contributes: its punctuated form if the recogniser sent one, else its raw form. */
  function WordText(w: Word): (t: string)
    ensures w.punctuatedWord.Some? ==> t == w.punctuatedWord.value
    ensures w.punctuatedWord.None? ==> t == w.word
  {
    w.punctuatedWord.GetOr(w.word)
  }

  function WordTexts(ws: seq<Word>): (ts: seq<string>)
    ensures |ts| == |ws|
    ensures forall i :: 0 <= i < |ws| ==> ts[i] == WordText(ws[i])
  {
    seq(|ws|, i requires 0 <= i < |ws| => WordText(ws[i]))
  }

  /** JavaScript's `Array.prototype.join(sep)`. */
  function Join(parts: seq<string>, sep: string): string
    decreases |parts|
  {
    if |parts| == 0 then ""
    else if |parts| == 1 then parts[0]
    else parts[0] + sep + Join(parts[1..], sep)
  }

  /**
   * The caption text. When there is a word and no word's text contains a
   * space, it holds exactly the words' texts, in order, one space apart.
   */
  function Text(ws: seq<Word>): (text: string)
    ensures |ws| > 0 && (forall i :: 0 <= i < |ws| ==> ' ' !in WordText(ws[i])) ==>
      Split(text, ' ') == WordTexts(ws)
  {
    var texts := WordTexts(ws);
    if |ws| > 0 && (forall i :: 0 <= i < |ws| ==> ' ' !in WordText(ws[i])) then
      SplitJoin(texts, ' ');
      Join(texts, " ")
    else
      Join(texts, " ")
  }

  /** Cuts `s` at every `sep`, keeping empty pieces; the inverse of joining with `[sep]`. */
  function Split(s: string, sep: char): (pieces: seq<string>)
    ensures |pieces| > 0
    decreases |s|
  {
    if s == [] then [""]
    else
      var rest := Split(s[1..], sep);
      if s[0] == sep then [""] + rest else [[s[0]] + rest[0]] + rest[1..]
  }

  lemma {:induction false} SplitWithoutSeparator(s: string, sep: char)
    requires sep !in s
    ensures Split(s, sep) == [s]
    decreases |s|
  {
    if s != [] {
      SplitWithoutSeparator(s[1..], sep);
      assert [s[0]] + s[1..] == s;
    }
  }

  lemma {:induction false} SplitAtFirstSeparator(a: string, sep: char, b: string)
    requires sep !in a
    ensures Split(a + [sep] + b, sep) == [a] + Split(b, sep)
    decreases |a|
  {
    var s := a + [sep] + b;
    if a == [] {
      assert s[1..] == b;
    } else {
      assert s[1..] == a[1..] + [sep] + b;
      SplitAtFirstSeparator(a[1..], sep, b);
      assert [s[0]] + a[1..] == a;
    }
  }

  /** Joining non-empty lists of pieces free of the separator can be undone by splitting. */
  lemma {:induction false} SplitJoin(parts: seq<string>, sep: char)
    requires |parts| > 0
    requires forall i :: 0 <= i < |parts| ==> sep !in parts[i]
    ensures Split(Join(parts, [sep]), sep) == parts
    decreases |parts|
  {
    if |parts| == 1 {
      SplitWithoutSeparator(parts[0], sep);
    } else {
      SplitJoin(parts[1..], sep);
      SplitAtFirstSeparator(parts[0], sep, Join(parts[1..], [sep]));
      assert [parts[0]] + parts[1..] == parts;
    }
  }
}
