/** The two text tools: `reverse_text` and `emoji_replacer`. */
module TextTools {
  import opened PyStr

  const ReversedLabel: string := "Reversed Text: "

  /** `reverse_text(text)`: the label followed by the text backwards. */
  function ReverseText(text: string): (r: string)
    ensures |r| == |ReversedLabel| + |text|
    ensures r[..|ReversedLabel|] == ReversedLabel
    ensures forall i :: |ReversedLabel| <= i < |r| ==> r[i] == text[|r| - 1 - i]
  {
    ReversedLabel + Reverse(text)
  }

  /** Reversing what follows the label gives the text back. */
  lemma ReverseTextInverse(text: string)
    ensures Reverse(ReverseText(text)[|ReversedLabel|..]) == text
  {
    assert ReverseText(text)[|ReversedLabel|..] == Reverse(text);
    ReverseReverse(text);
  }

  /** The table of `emoji_replacer`, keyed by lower-case word. */
  const Replacements: map<string, string> := map[
    "happy" := "\U{1F60A}",
    "sad" := "\U{1F622}",
    "love" := "\U{2764}\U{FE0F}",
    "fire" := "\U{1F525}",
    "cool" := "\U{1F60E}",
    "cat" := "\U{1F431}",
    "dog" := "\U{1F436}",
    "party" := "\U{1F389}"
  ]

  /** `replacements.get(word.lower(), word)`. */
  function ReplaceWord(word: string): string {
    var key := Lower(word);
    if key in Replacements then Replacements[key] else word
  }

  function ReplaceAll(words: seq<string>): (r: seq<string>)
    ensures |r| == |words|
    ensures forall i :: 0 <= i < |words| ==> r[i] == ReplaceWord(words[i])
  {
    if words == [] then [] else [ReplaceWord(words[0])] + ReplaceAll(words[1..])
  }

  /** No emoji of the table holds whitespace, so a replaced word is still
      a word. */
  lemma ReplaceWordIsWord(word: string)
    requires IsWord(word)
    ensures IsWord(ReplaceWord(word))
  {
    var key := Lower(word);
    if key in Replacements {
      var v := Replacements[key];
      assert IsWord(v) by {
        assert key == "happy" || key == "sad" || key == "love" || key == "fire" ||
               key == "cool" || key == "cat" || key == "dog" || key == "party";
      }
    }
  }

  /** `emoji_replacer(text)`: split on whitespace, replace each word whose
      lower case is in the table, join with single spaces. */
  function EmojiReplacer(text: string): (r: string)
    ensures Split(r) == ReplaceAll(Split(text))
    ensures r == Join(" ", Split(r))
  {
    var words := Split(text);
    var replaced := ReplaceAll(words);
    forall i | 0 <= i < |replaced| ensures IsWord(replaced[i]) {
      ReplaceWordIsWord(words[i]);
    }
    SplitJoin(replaced);
    Join(" ", replaced)
  }

  /** The replaced text has one word per word of the input, and word `i` is
      the emoji for input word `i` when the table has one, else that word. */
  lemma EmojiReplacerWords(text: string)
    ensures |Split(EmojiReplacer(text))| == |Split(text)|
    ensures forall i :: 0 <= i < |Split(text)| ==>
              Split(EmojiReplacer(text))[i] == ReplaceWord(Split(text)[i])
  {
  }

  /** Matching is on the lower-case word: a word and its lower case are
      replaced alike, and a word whose lower case is not in the table is
      kept as typed. */
  lemma ReplaceIgnoresCase(word: string)
    ensures Lower(word) in Replacements ==> ReplaceWord(word) == ReplaceWord(Lower(word))
    ensures Lower(word) !in Replacements ==> ReplaceWord(word) == word
  {
    LowerIdempotent(word);
  }
}
