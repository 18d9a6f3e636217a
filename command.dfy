/**
 * `CommandHandler.handleCommand`: a message text is split on single spaces;
 * the first piece, lower-cased, names the command and the rest, joined back
 * with single spaces, is handed to the command as its arguments.
 */
module Commands {
  import opened Text

  /** The handler a command is routed to, with the arguments it receives. */
  datatype Route =
    | Start
    | Help
    | Search(args: string)
    | Recommend(args: string)
    | Book(args: string)
    | MyBookings
    | Unknown

  /** `msg.text.split(' ')[0].toLowerCase()` */
  function Command(text: string): string {
    Lower(Split(text, ' ')[0])
  }

  /** `msg.text.split(' ').slice(1).join(' ')` */
  function Args(text: string): string {
    Join(Split(text, ' ')[1..], ' ')
  }

  /** The `switch (command)` and its `default`. */
  function Dispatch(command: string, args: string): Route {
    if command == "/start" then Start
    else if command == "/help" then Help
    else if command == "/search" then Search(args)
    else if command == "/recommend" then Recommend(args)
    else if command == "/book" then Book(args)
    else if command == "/mybookings" then MyBookings
    else Unknown
  }

  /** Where `handleCommand` sends a message. */
  function HandleCommand(text: string): Route {
    Dispatch(Command(text), Args(text))
  }

  /** Splitting at a first separator leaves the text before it as the first piece. */
  lemma {:induction false} SplitAtFirst(word: string, rest: string, sep: char)
    requires sep !in word
    ensures Split(word + [sep] + rest, sep) == [word] + Split(rest, sep)
    decreases |word|
  {
    if word == [] {
      assert word + [sep] + rest == [sep] + rest;
      assert ([sep] + rest)[1..] == rest;
    } else {
      SplitAtFirst(word[1..], rest, sep);
      var s := word + [sep] + rest;
      assert s[1..] == word[1..] + [sep] + rest;
      assert [word[0]] + word[1..] == word;
    }
  }

  /** The command is the first word, lower-cased; the arguments are everything after the first space, spaces included. */
  lemma CommandAndArgs(word: string, rest: string)
    requires ' ' !in word
    ensures Command(word + " " + rest) == Lower(word)
    ensures Args(word + " " + rest) == rest
  {
    SplitAtFirst(word, rest, ' ');
    var parts := Split(word + " " + rest, ' ');
    assert parts[1..] == Split(rest, ' ');
    JoinSplit(rest, ' ');
  }

  /** A text with no space is a command with no arguments. */
  lemma CommandAlone(word: string)
    requires ' ' !in word
    ensures Command(word) == Lower(word)
    ensures Args(word) == ""
  {
    SplitHead(word, ' ');
  }

  /** Putting the command back in front of its arguments, with the space between, gives the text again, up to case. */
  lemma CommandRoundTrip(text: string)
    requires ' ' in text
    ensures exists word :: ' ' !in word && Lower(word) == Command(text) && word + " " + Args(text) == text
  {
    SplitHead(text, ' ');
    var i :| 0 <= i < |text| && text[i] == ' ' && ' ' !in text[..i] && Split(text, ' ')[0] == text[..i];
    var word, rest := text[..i], text[i + 1..];
    assert word + " " + rest == text;
    CommandAndArgs(word, rest);
    assert ' ' !in word && Lower(word) == Command(text) && word + " " + Args(text) == text;
  }

  /** Lower-casing does not introduce a space. */
  lemma LowerKeepsSpaceOut(word: string)
    requires ' ' !in word
    ensures ' ' !in Lower(word)
  {
    forall i | 0 <= i < |word| ensures Lower(word)[i] != ' ' {
      assert word[i] != ' ';
    }
  }

  /** A command is routed by its lower-cased first word, and its arguments keep their case. */
  lemma HandleCommandRoutes(word: string, rest: string)
    requires ' ' !in word
    ensures HandleCommand(word + " " + rest) == Dispatch(Lower(word), rest)
    ensures HandleCommand(word) == Dispatch(Lower(word), "")
  {
    CommandAndArgs(word, rest);
    CommandAlone(word);
  }

  /** Commands match whatever the case of their letters: lower-casing the first word changes no route. */
  lemma HandleCommandIgnoresCase(word: string, rest: string)
    requires ' ' !in word
    ensures HandleCommand(Lower(word) + " " + rest) == HandleCommand(word + " " + rest)
    ensures HandleCommand(Lower(word)) == HandleCommand(word)
  {
    LowerKeepsSpaceOut(word);
    LowerIdempotent(word);
    HandleCommandRoutes(word, rest);
    HandleCommandRoutes(Lower(word), rest);
  }

  /** Only the six known commands avoid the unknown-command reply. */
  lemma DispatchKnown(command: string, args: string)
    ensures Dispatch(command, args) != Unknown <==>
      command in {"/start", "/help", "/search", "/recommend", "/book", "/mybookings"}
    ensures Dispatch(command, args).Search? || Dispatch(command, args).Recommend? || Dispatch(command, args).Book? ==>
      Dispatch(command, args).args == args
  {
  }
}
