/**
 * `GenericTokenParser.parse` on small texts with the usual `${` and `}`
 * tokens, one for each of its escape and fallback rules.
 */
module TokenParserExamples {
  import opened Wrappers
  import opened Strings
  import opened TokenParser

  /** A backslash before the open token is dropped and the token is copied; the handler is not called. */
  lemma EscapedOpenTokenExample(handler: string -> string)
    ensures Parsed("${", "}", handler, "\\${x}") == Some("${x}")
    ensures HandlerCalls("${", "}", handler, "\\${x}") == Some([])
  {
    var text := "\\${x}";
    assert IndexOf(text, "${", 0) == 1 by {
      assert !OccursAt(text, "${", 0);
      assert OccursAt(text, "${", 1);
    }
    assert IndexOf(text, "${", 3) == -1 by {
      assert !OccursAt(text, "${", 3);
    }
    assert OpenStepAt(text, "${", "}", 0) == OpenEscaped("${", 3);
    assert OpenStepAt(text, "${", "}", 3) == OpenMissing;
    assert Substring(text, 3, 5) == "x}";
    assert Scan(text, "${", "}", handler, 3) == Some(Output("x}", []));
    var none: seq<string> := [];
    assert none + none == none;
    assert "${" + "x}" == "${x}";
  }

  /** A backslash before a close token inside an expression is dropped and the search goes on. */
  lemma EscapedCloseTokenExample(handler: string -> string)
    ensures Parsed("${", "}", handler, "a${b\\}c}d") == Some("a" + handler("b}c") + "d")
    ensures HandlerCalls("${", "}", handler, "a${b\\}c}d") == Some(["b}c"])
  {
    var text := "a${b\\}c}d";
    assert IndexOf(text, "${", 0) == 1 by {
      assert !OccursAt(text, "${", 0);
      assert OccursAt(text, "${", 1);
    }
    assert IndexOf(text, "}", 3) == 5 by {
      assert !OccursAt(text, "}", 3);
      assert !OccursAt(text, "}", 4);
      assert OccursAt(text, "}", 5);
    }
    assert IndexOf(text, "}", 6) == 7 by {
      assert !OccursAt(text, "}", 6);
      assert OccursAt(text, "}", 7);
    }
    assert IndexOf(text, "${", 8) == -1 by {
      assert !OccursAt(text, "${", 8);
    }
    assert ScanClose(text, "}", 6) == Closed("c", 8);
    assert ScanClose(text, "}", 3) == Closed("b}" + "c", 8);
    assert OpenStepAt(text, "${", "}", 0) == OpenToken("a", "b}c", 8);
    assert OpenStepAt(text, "${", "}", 8) == OpenMissing;
    assert Substring(text, 8, 9) == "d";
    assert Scan(text, "${", "}", handler, 8) == Some(Output("d", []));
    assert ["b}c"] + [] == ["b}c"];
  }

  /**
   * Without an unescaped close token, everything from the open token on is
   * copied as it is, backslash included.
   */
  lemma UnclosedTokenExample(handler: string -> string)
    ensures Parsed("${", "}", handler, "a${b\\}c") == Some("a${b\\}c")
    ensures HandlerCalls("${", "}", handler, "a${b\\}c") == Some([])
  {
    var text := "a${b\\}c";
    assert IndexOf(text, "${", 0) == 1 by {
      assert !OccursAt(text, "${", 0);
      assert OccursAt(text, "${", 1);
    }
    assert IndexOf(text, "}", 3) == 5 by {
      assert !OccursAt(text, "}", 3);
      assert !OccursAt(text, "}", 4);
      assert OccursAt(text, "}", 5);
    }
    assert IndexOf(text, "}", 6) == -1 by {
      assert !OccursAt(text, "}", 6);
    }
    assert ScanClose(text, "}", 3) == Unclosed;
    assert OpenStepAt(text, "${", "}", 0) == OpenUnclosed;
    SubstringIsSlice(text, 0, |text|);
    assert text[0..|text|] == text;
  }

  /** Two tokens: the handler is called on each, from left to right. */
  lemma TwoTokensExample(handler: string -> string)
    ensures Parsed("${", "}", handler, "${x}${y}") == Some(handler("x") + handler("y"))
    ensures HandlerCalls("${", "}", handler, "${x}${y}") == Some(["x", "y"])
  {
    var text := "${x}${y}";
    assert IndexOf(text, "${", 0) == 0 by {
      assert OccursAt(text, "${", 0);
    }
    assert IndexOf(text, "}", 2) == 3 by {
      assert !OccursAt(text, "}", 2);
      assert OccursAt(text, "}", 3);
    }
    assert IndexOf(text, "${", 4) == 4 by {
      assert OccursAt(text, "${", 4);
    }
    assert IndexOf(text, "}", 6) == 7 by {
      assert !OccursAt(text, "}", 6);
      assert OccursAt(text, "}", 7);
    }
    assert IndexOf(text, "${", 8) == -1;
    assert OpenStepAt(text, "${", "}", 0) == OpenToken("", "x", 4);
    assert OpenStepAt(text, "${", "}", 4) == OpenToken("", "y", 8);
    assert OpenStepAt(text, "${", "}", 8) == OpenMissing;
    assert Substring(text, 8, 8) == "";
    assert Scan(text, "${", "}", handler, 8) == Some(Output("", []));
    assert ("" + handler("y")) + "" == handler("y");
    assert ["y"] + [] == ["y"];
    assert Scan(text, "${", "}", handler, 4) == Some(Output(handler("y"), ["y"]));
    assert ("" + handler("x")) + handler("y") == handler("x") + handler("y");
    assert ["x"] + ["y"] == ["x", "y"];
  }

  /**
   * With a close token that ends in a backslash, the open token right after
   * it counts as escaped although that backslash was already consumed: the
   * parser appends a range of length -1 and throws.
   */
  lemma ThrowsExample(handler: string -> string)
    ensures Parsed("<", ">\\", handler, "<a>\\<b>\\") == None
  {
  }
}
