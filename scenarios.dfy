/** Concrete runs of the selector, worked out from the model's definitions: the
    typed index lists the component's input box accepts, and a session of toggling,
    dragging and exporting. */
module Scenarios {
  import opened Options
  import opened JsString
  import opened Splice
  import opened Selection
  import opened AppComponent

  lemma SmallNumbers()
    ensures NatToString(0) == "0" && NatToString(1) == "1" && NatToString(2) == "2"
    ensures NatToString(3) == "3" && NatToString(5) == "5"
  {
  }

  lemma LiteralIds()
    ensures ToIds([5, 1, 3]) == ["5", "1", "3"]
    ensures ToIds([1, 1, 2]) == ["1", "1", "2"]
  {
    SmallNumbers();
  }

  lemma DistinctDedup()
    ensures Dedup(["5", "1", "3"]) == ["5", "1", "3"]
  {
    DedupOfDistinct(["5", "1", "3"]);
  }

  lemma TypedTexts()
    ensures Join(ToIds([5, 1, 3]), ',') == "5,1,3"
    ensures Join(ToIds([1, 1, 2]), ',') == "1,1,2"
  {
    LiteralIds();
    assert Join(["5", "1", "3"], ',') == "5,1,3";
    assert Join(["1", "1", "2"], ',') == "1,1,2";
  }

  /** Typing "5,1,3" into a five-page document selects pages 5, 1 and 3 in that order. */
  lemma TypedOrderIsKept()
    ensures IndexSelection("5,1,3", 5) == ["5", "1", "3"]
  {
    TypedTexts();
    SelectTypedIds([5, 1, 3], 5);
    LiteralIds();
    DistinctDedup();
  }

  /** Typing "1,1,2" selects page 1 once, at its first position. */
  lemma RepeatsCollapse()
    ensures IndexSelection("1,1,2", 2) == ["1", "2"]
  {
    TypedTexts();
    SelectTypedIds([1, 1, 2], 2);
    LiteralIds();
    DedupRepeat("1", "2");
  }

  /** `parseInt` without a radix reads a `0x` prefix as hexadecimal. */
  lemma HexToken()
    ensures ParseInt("0x1A") == Num(26)
  {
    assert LeadingWhiteSpace("0x1A") == 0;
    assert HexPrefix("1A") == "1A";
    assert DigitsValue("1A", 16) == 26;
  }

  /** `parseInt` stops at the first character that is not a digit. */
  lemma TrailingLetters()
    ensures ParseInt("3abc") == Num(3)
  {
    assert LeadingWhiteSpace("3abc") == 0;
    assert DecimalPrefix("3abc") == "3";
    assert DigitsValue("3", 10) == 3;
  }

  /** A decimal point ends the digits too: `parseInt` truncates "1.5" to 1. */
  lemma DecimalPoint()
    ensures ParseInt("1.5") == Num(1)
  {
    assert LeadingWhiteSpace("1.5") == 0;
    assert DecimalPrefix("1.5") == "1";
    assert DigitsValue("1", 10) == 1;
  }

  /** A token with no leading digits is `NaN`. */
  lemma NotANumber()
    ensures ParseInt("abc") == NaN && ParseInt("") == NaN
  {
  }

  /** A leading minus sign negates the value. */
  lemma NegativeToken()
    ensures ParseInt("-1") == Num(-1)
  {
    assert LeadingWhiteSpace("-1") == 0;
    assert "-1"[1..] == "1";
    assert DecimalPrefix("1") == "1";
    assert DigitsValue("1", 10) == 1;
  }

  /** Tokens are trimmed of white space on both sides. */
  lemma TrimmedToken()
    ensures Trim(" 0x2 ") == "0x2"
  {
    TrimPadded("0x2");
    assert [' '] + "0x2" + [' '] == " 0x2 ";
  }

  /** The typed text is split at every comma. */
  lemma SplitAtCommas()
    ensures Split(" 0x2 ,3abc", ',') == [" 0x2 ", "3abc"]
  {
    assert Join([" 0x2 ", "3abc"], ',') == " 0x2 ,3abc";
    SplitJoin([" 0x2 ", "3abc"], ',');
  }

  lemma OutOfRangeTokens()
    ensures ParseTokens("0,99") == [Num(0), Num(99)]
  {
    assert NatToString(0) == "0" && NatToString(99) == "99";
    assert ToIds([0, 99]) == ["0", "99"];
    assert Join(["0", "99"], ',') == "0,99";
    ParseTokensOfIds([0, 99]);
  }

  /** Typing "0,99" into a ten-page document names no page, so nothing is selected. */
  lemma OutOfRangeSelectsNothing()
    ensures IndexSelection("0,99", 10) == []
  {
    OutOfRangeTokens();
    NoPageNamed("0,99", 10);
  }

  lemma SwapByDrop()
    ensures IndexOf(["2", "1"], "1") == 1
    ensures Move(["2", "1"], 1, 0) == ["1", "2"]
  {
    MoveToEnds(["2", "1"], 1);
    assert RemoveAt(["2", "1"], 1) == ["2"];
  }

  lemma ParsedIds()
    ensures ParseInt("1") == Num(1) && ParseInt("2") == Num(2)
  {
    SmallNumbers();
    ParseIntOfString(1);
    ParseIntOfString(2);
  }

  /** Exporting the order "1", "2" copies source pages 0 and 1. */
  lemma PlanOfOneTwo(plan: seq<nat>, pages: seq<Page>, order: seq<string>)
    requires order == ["1", "2"] && IsPlanOf(plan, pages, order)
    ensures plan == [0, 1]
  {
    ParsedIds();
  }

  /** A three-page PDF loaded once pdf.js is available. */
  method LoadThreePages() returns (app: App)
    ensures fresh(app) && app.Valid()
    ensures app.pdfLoaded && |app.pages| == 3 && app.selectedPages == {} && app.order == []
  {
    app := new App();
    app.MarkPdfJsLoaded();
    var outcome := app.HandleFileChange(File("application/pdf"), Some(3));
  }

  /** Clicking the cards of pages 2 and then 1. */
  method PickTwoThenOne(app: App)
    requires app.Valid() && |app.pages| == 3 && app.selectedPages == {} && app.order == []
    modifies app
    ensures app.Valid() && app.order == ["2", "1"]
    ensures app.pdfLoaded == old(app.pdfLoaded) && app.pages == old(app.pages)
  {
    SmallNumbers();
    PageIdOf(1, 3);
    PageIdOf(2, 3);
    app.TogglePageSelection("2");
    app.TogglePageSelection("1");
  }

  /** Dragging page 1 onto the first card. */
  method DragOneToFront(app: App)
    requires app.Valid() && app.order == ["2", "1"]
    modifies app
    ensures app.Valid() && app.order == ["1", "2"]
    ensures app.pdfLoaded == old(app.pdfLoaded) && app.pages == old(app.pages)
  {
    app.HandleDragStart("1");
    SwapByDrop();
    app.HandleDrop(0);
  }

  /** A load, two toggles, a drag and an export: page "2" is selected first and page
      "1" second, then "1" is dropped on the first card, and the export copies source
      pages 0 and 1 in that order. */
  method ToggleDragExport() returns (order: seq<string>, plan: Option<seq<nat>>)
    ensures order == ["1", "2"]
    ensures plan == Some([0, 1])
  {
    var app := LoadThreePages();
    PickTwoThenOne(app);
    DragOneToFront(app);
    order := app.order;
    assert "1" in app.selectedPages;
    plan := app.ExportPlan();
    PlanOfOneTwo(plan.value, app.pages, order);
  }
}
