/**
 * Concrete lines worked through the parser model: the documented uses of
 * quoting and of the background marker, and the parser's quirks.
 */
module ParserExamples {
  import opened Wrappers
  import opened Parser

  /** `sleep 5 &` runs `sleep 5` in the background. */
  lemma BackgroundSleep(buf: seq<char>)
    requires buf == Line("sleep 5 &\n")
    ensures ParseLine(buf) == Success(Command(["sleep", "5"], true))
  {
    var line, args := "sleep 5 &\n", ["sleep", "5"];
    assert Words(line) == args + ["&"] by {
      SleepFiveAmpersand();
    }
    QuoteFreeBackground(line, args);
  }

  lemma SleepFiveAmpersand()
    ensures Words("sleep 5 &\n") == ["sleep", "5", "&"]
  {
    assert Words("sleep ") == ["sleep"] by {
      WordsSnoc("", "sleep", ' ');
      assert "" + "sleep" + [' '] == "sleep ";
    }
    assert Words("sleep 5 ") == ["sleep", "5"] by {
      WordsSnoc("sleep ", "5", ' ');
      assert "sleep " + "5" + [' '] == "sleep 5 ";
    }
    WordsSnoc("sleep 5 ", "&", '\n');
    assert "sleep 5 " + "&" + ['\n'] == "sleep 5 &\n";
  }

  /** `ls -l "my file"` passes the quoted text, space included, as one argument. */
  lemma QuotedArgument(buf: seq<char>)
    requires buf == Line("ls -l \"my file\"\n")
    ensures ParseLine(buf) == Success(Command(["ls", "-l", "my file"], false))
  {
    assert Words("ls -l ") == ["ls", "-l"] by {
      assert Words("ls ") == ["ls"] by {
        WordsSnoc("", "ls", ' ');
        assert "" + "ls" + [' '] == "ls ";
      }
      WordsSnoc("ls ", "-l", ' ');
      assert "ls " + "-l" + [' '] == "ls -l ";
    }
    var prefix, quoted, tail := "ls -l ", "my file", "";
    assert buf == Line(prefix + "\"" + quoted + "\"" + tail + "\n");
    var r := Run(buf, StrLen(buf));
    assert r.words == ["ls", "-l", "my file"] && !r.quotation by {
      QuotedLastWord(prefix, quoted, tail);
    }
  }

  /**
   * `echo "a b"c`: the closing mark emits `a b`, and the separator after
   * `c` emits the text read from the unchanged `start` again, which is `a b`
   * once more; `c` is lost.
   */
  lemma QuotedTextRepeated(buf: seq<char>)
    requires buf == Line("echo \"a b\"c\n")
    ensures ParseLine(buf) == Success(Command(["echo", "a b", "a b"], false))
  {
    assert Words("echo ") == ["echo"] by {
      WordsSnoc("", "echo", ' ');
      assert "" + "echo" + [' '] == "echo ";
    }
    var prefix, quoted, tail := "echo ", "a b", "c";
    assert buf == Line(prefix + "\"" + quoted + "\"" + tail + "\n");
    var r := Run(buf, StrLen(buf));
    assert r.words == ["echo", "a b", "a b"] && !r.quotation by {
      QuotedLastWord(prefix, quoted, tail);
    }
  }

  /**
   * `sleep "&"`: a quoted `&` is the background marker too, because the
   * check compares the text of the last token only.
   */
  lemma QuotedAmpersand(buf: seq<char>)
    requires buf == Line("sleep \"&\"\n")
    ensures ParseLine(buf) == Success(Command(["sleep"], true))
  {
    assert Words("sleep ") == ["sleep"] by {
      WordsSnoc("", "sleep", ' ');
      assert "" + "sleep" + [' '] == "sleep ";
    }
    var prefix, quoted, tail := "sleep ", "&", "";
    assert buf == Line(prefix + "\"" + quoted + "\"" + tail + "\n");
    var r := Run(buf, StrLen(buf));
    assert r.words == ["sleep", "&"] && !r.quotation by {
      QuotedLastWord(prefix, quoted, tail);
    }
    assert r.words[..1] == ["sleep"];
  }

  /** `echo "oops` never closes its quotation: the line is rejected. */
  lemma UnclosedQuotation(buf: seq<char>)
    requires buf == Line("echo \"oops\n")
    ensures ParseLine(buf) == Failure(UnclosedQuote)
  {
    assert StrLen(buf) == 11 by {
      FirstNulIs(buf, 0, 11);
    }
    assert Run(buf, 11).quotation by {
      QuotationToggles(buf, 11);
      QuoteOpenSkips(buf, 0, 5);
      QuoteOpenSkips(buf, 6, 11);
    }
  }

  /**
   * A last word with no separator after it is not a token: a final line
   * read without its newline loses its last word.
   */
  lemma LastWordNeedsSeparator(buf: seq<char>)
    requires buf == Line("ls -l")
    ensures ParseLine(buf) == Success(Command(["ls"], false))
  {
    var s := "ls -l";
    assert Words(s) == ["ls"] by {
      WordsToWithinRun(s, 3, 5);
      WordsToPrefix(s, "ls ", 3);
      WordsSnoc("", "ls", ' ');
      assert "" + "ls" + [' '] == "ls ";
    }
    QuoteFreeParse(s);
  }

  /**
   * A line of blanks stores no token, so the background test as written
   * (`BackgroundAsWritten`) would read the slot before `parsed`.
   */
  lemma BlankLineHasNoToken(buf: seq<char>)
    requires buf == Line(" \n")
    ensures var r := Run(buf, StrLen(buf)); !r.quotation && r.words == [] && r.parsed == []
  {
    assert StrLen(buf) == 2 by {
      FirstNulIs(buf, 0, 2);
    }
    var s0 := Run(buf, 0);
    StepSeparatorIdle(s0, 0);
    assert Run(buf, 1) == s0.(start := 1);
    StepSeparatorIdle(Run(buf, 1), 1);
    assert Run(buf, 2) == s0.(start := 2);
  }

  /** With the guard for an empty line, a line of blanks is an empty foreground command. */
  lemma BlankLineIsEmptyCommand(buf: seq<char>)
    requires buf == Line(" \n")
    ensures ParseLine(buf) == Success(Command([], false))
  {
    BlankLineHasNoToken(buf);
  }

  /** A lone `&` is a background command with no arguments at all. */
  lemma LoneAmpersand(buf: seq<char>)
    requires buf == Line("&\n")
    ensures ParseLine(buf) == Success(Command([], true))
  {
    assert Words("&\n") == ["&"] by {
      WordsSnoc("", "&", '\n');
      assert "" + "&" + ['\n'] == "&\n";
    }
    QuoteFreeParse("&\n");
  }
}
