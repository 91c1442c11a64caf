/**
 * Splitting the slash-command text into a command word and its arguments:
 * the command is the first space-separated piece, and the arguments are the
 * remaining pieces joined back with single spaces.
 */
module Tokenizer {
  import opened Strings

  /** `text.split(' ')[0]`. */
  function Command(text: string): (command: string)
    ensures ' ' !in command
  {
    Split(text, ' ')[0]
  }

  /**
   * `R.drop(1, text.split(' ')).join(' ')`: empty when the text has no space,
   * and otherwise what follows the command and the first space.
   */
  function Args(text: string): (args: string)
    ensures ' ' !in text ==> args == ""
    ensures ' ' in text ==> text == Command(text) + " " + args
  {
    var parts := Split(text, ' ');
    JoinSplit(text, ' ');
    assert |parts| >= 2 ==> Join(parts, ' ') == parts[0] + [' '] + Join(parts[1..], ' ');
    Join(parts[1..], ' ')
  }

  /**
   * The command and the arguments together give back the text: when the text
   * holds a space, it is the command, one space and the arguments (so the
   * arguments are everything after the first space, inner spaces included);
   * otherwise the command is the whole text and the arguments are empty.
   */
  lemma Recombine(text: string)
    ensures ' ' in text ==> text == Command(text) + " " + Args(text)
    ensures ' ' in text ==> Args(text) == text[|Command(text)| + 1..]
    ensures ' ' !in text ==> Command(text) == text && Args(text) == ""
  {
    JoinSplit(text, ' ');
    if ' ' in text {
      assert text[|Command(text)| + 1..] == Args(text);
    }
  }

  /**
   * Conversely, a word without spaces, one space and any rest tokenize to that
   * word and that rest, spaces inside the rest included: `register Bob Lee`
   * is the `register` command with the arguments `Bob Lee`.
   */
  lemma {:induction false} FirstWordAndRest(word: string, rest: string)
    requires ' ' !in word
    ensures Command(word + " " + rest) == word
    ensures Args(word + " " + rest) == rest
  {
    var text := word + " " + rest;
    assert text == word + (" " + rest);
    SplitPrefix(word, " " + rest, ' ');
    assert Split(" " + rest, ' ') == [""] + Split(rest, ' ') by {
      assert (" " + rest)[1..] == rest;
    }
    assert Command(text) == word;
    assert text[|word|] == ' ';
    Recombine(text);
  }
}
