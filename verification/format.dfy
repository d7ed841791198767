/** The markup builders of ui/format.go: colour selection, resource-type
    formatting, one line per display row, and the sorted rendering of a whole
    row map. */
module Format {
  import opened Utils
  import opened Text
  import opened Cfn
  import opened Data

  /** The three bold colours the display uses. */
  datatype Color = Green | Yellow | Red

  function BoldTag(c: Color): string
  {
    match c
    case Green => "[green::b]"
    case Yellow => "[yellow::b]"
    case Red => "[red::b]"
  }

  const EndTag: string := "[-]"

  // ---------------------------------------------------------------------
  // Colour selection

  /** Yellow for update, red for delete, green otherwise. */
  function OperationColor(op: StackOperation): (c: Color)
    ensures c == Yellow <==> op == Update
    ensures c == Red <==> op == Delete
    ensures c == Green <==> op == Create
  {
    match op
    case Update => Yellow
    case Delete => Red
    case Create => Green
  }

  /** The operation, coloured and upper-cased, after a leading space. */
  function StackOperationColorize(op: StackOperation): string
  {
    " " + BoldTag(OperationColor(op)) + ToUpper(OperationName(op)) + EndTag
  }

  /** Upper-casing a lower-case word, checked character by character. */
  lemma UpperLiteral(word: string, upper: string)
    requires |word| == |upper|
    requires forall i :: 0 <= i < |word| ==> UpperChar(word[i]) == upper[i]
    ensures ToUpper(word) == upper
  {
  }

  lemma OperationWordsUpper()
    ensures ToUpper("create") == "CREATE"
    ensures ToUpper("update") == "UPDATE"
    ensures ToUpper("delete") == "DELETE"
  {
    UpperLiteral("create", "CREATE");
    UpperLiteral("update", "UPDATE");
    UpperLiteral("delete", "DELETE");
  }

  /** What each operation renders as: its colour tag, its upper-cased name,
      the end tag. */
  lemma StackOperationColorizeTable()
    ensures StackOperationColorize(Create) == " " + "[green::b]" + "CREATE" + "[-]"
    ensures StackOperationColorize(Update) == " " + "[yellow::b]" + "UPDATE" + "[-]"
    ensures StackOperationColorize(Delete) == " " + "[red::b]" + "DELETE" + "[-]"
  {
    OperationWordsUpper();
  }

  /** Yellow for Modify, red for Remove, green otherwise. */
  function ActionColor(a: ChangeAction): (c: Color)
    ensures c == Yellow <==> a == Modify
    ensures c == Red <==> a == Remove
    ensures c == Green <==> (a == Add || a == NoAction)
  {
    match a
    case Modify => Yellow
    case Remove => Red
    case Add => Green
    case NoAction => Green
  }

  /** The action in its colour: as a glyph when `ascii`, else upper-cased. */
  function ColorizeAction(a: ChangeAction, ascii: bool): string
  {
    var mark := if ascii then ChangeSetAscii(a) else ToUpper(ActionName(a));
    BoldTag(ActionColor(a)) + mark + EndTag
  }

  /** What each action renders as in the glyph column; the zero action
      renders as an empty coloured cell. */
  lemma ColorizeActionGlyphs()
    ensures ColorizeAction(Add, true) == "[green::b]" + "+" + "[-]"
    ensures ColorizeAction(Modify, true) == "[yellow::b]" + "\U{21BB}" + "[-]"
    ensures ColorizeAction(Remove, true) == "[red::b]" + "-" + "[-]"
    ensures ColorizeAction(NoAction, true) == "[green::b]" + "[-]"
  {
  }

  /** Spelled out, each action is its colour tag, its upper-cased name and
      the end tag; the zero action renders as the same empty cell as in the
      glyph column. */
  lemma ColorizeAddWord()
    ensures ColorizeAction(Add, false) == "[green::b]" + "ADD" + "[-]"
  {
    UpperLiteral("Add", "ADD");
  }

  lemma ColorizeModifyWord()
    ensures ColorizeAction(Modify, false) == "[yellow::b]" + "MODIFY" + "[-]"
  {
    UpperLiteral("Modify", "MODIFY");
  }

  lemma ColorizeRemoveWord()
    ensures ColorizeAction(Remove, false) == "[red::b]" + "REMOVE" + "[-]"
  {
    UpperLiteral("Remove", "REMOVE");
  }

  lemma ColorizeNoActionWord()
    ensures ColorizeAction(NoAction, false) == ColorizeAction(NoAction, true)
  {
  }

  /** Red for a negative status, yellow for a pending one, green otherwise;
      the negative test comes last in the source, so it decides any tie. */
  function StatusColor(status: Status): (c: Color)
    ensures c == Red <==> ContainsStatus(NegativeEventStatus, status)
    ensures c == Yellow <==>
      ContainsStatus(PendingEventStatus, status) && !ContainsStatus(NegativeEventStatus, status)
    ensures c == Green <==>
      !ContainsStatus(PendingEventStatus, status) && !ContainsStatus(NegativeEventStatus, status)
  {
    if ContainsStatus(NegativeEventStatus, status) then Red
    else if ContainsStatus(PendingEventStatus, status) then Yellow
    else Green
  }

  /** With the families disjoint, the colours sort statuses exactly into
      negative, pending and the rest; every positive status is green. */
  lemma StatusColorByFamily(status: Status)
    ensures StatusColor(status) == Yellow <==> ContainsStatus(PendingEventStatus, status)
    ensures ContainsStatus(PositiveEventStatus, status) ==> StatusColor(status) == Green
  {
    StatusFamiliesDisjoint();
  }

  /** The status in its colour, upper-cased. */
  function ColorizeStatus(status: Status): string
  {
    BoldTag(StatusColor(status)) + ToUpper(status) + EndTag
  }

  // ---------------------------------------------------------------------
  // Resource types

  /** The lower-cased type with every `"::"` turned into `"."`. */
  function TypeLabel(resourceType: string): string
  {
    ToLower(ReplaceDoubleColon(resourceType))
  }

  /** The dimmed, dotted, lower-cased resource type; the label between the
      tags contains no `"::"` and no upper-case ASCII letter. */
  function ResourceTypeFormat(resourceType: string): (s: string)
    ensures s == "[grey::d]" + TypeLabel(resourceType) + EndTag
    ensures NoDoubleColon(TypeLabel(resourceType))
    ensures forall i :: 0 <= i < |TypeLabel(resourceType)| ==> !('A' <= TypeLabel(resourceType)[i] <= 'Z')
  {
    ToLowerKeepsNoDoubleColon(ReplaceDoubleColon(resourceType));
    "[grey::d]" + TypeLabel(resourceType) + EndTag
  }

  // ---------------------------------------------------------------------
  // Rows

  /** One line of the title bar: a white caption, then the value in bold. */
  function TitleLine(caption: string, value: string): string
  {
    "[white]" + caption + "[white::b]" + value
  }

  /** The title bar shown above the rows: stack name, change-set name and
      stack id, built up line by line with a newline after all but the last. */
  function TitleBar(info: StackInfo): string
  {
    TitleLine("Stack:     ", info.stackName) + "\n"
      + TitleLine("Changeset: ", info.changeSetName) + "\n"
      + TitleLine("Id:        ", info.stackId)
  }

  /** The title bar is the three caption lines joined by newlines, each
      line ending with the field it shows. */
  lemma TitleBarLines(info: StackInfo)
    ensures var lines := [
              TitleLine("Stack:     ", info.stackName),
              TitleLine("Changeset: ", info.changeSetName),
              TitleLine("Id:        ", info.stackId)];
            && TitleBar(info) == JoinLines(lines)
            && EndsWith(lines[0], info.stackName)
            && EndsWith(lines[1], info.changeSetName)
            && EndsWith(lines[2], info.stackId)
  {
    var a, b, c := TitleLine("Stack:     ", info.stackName),
      TitleLine("Changeset: ", info.changeSetName), TitleLine("Id:        ", info.stackId);
    JoinThree(a, b, c);
    EndsWithAppended("[white]Stack:     [white::b]", info.stackName);
    EndsWithAppended("[white]Changeset: [white::b]", info.changeSetName);
    EndsWithAppended("[white]Id:        [white::b]", info.stackId);
  }

  /** The logical id in the id colour, followed by a switch to white. */
  function IdCell(logicalId: string): string
  {
    "[#00b8ea]" + logicalId + " [white]"
  }

  const ReplaceTag: string := " [red]Replace[white]"
  const ReplaceConditionalTag: string := " [yellow]Replace conditional[white]"

  /** A change row: the head, the replacement tag, a newline. */
  function ParseChangeRow(row: DisplayRow): (s: string)
    ensures |s| > 0 && s[|s| - 1] == '\n'
  {
    ChangeRowHead(row) + ReplacementTagOf(row) + "\n"
  }

  /** An active row leads with `PENDING_<ACTION>`; an inactive one with the
      glyph, followed after the id by the action word. Both end with the
      resource type. */
  function ChangeRowHead(row: DisplayRow): (s: string)
    ensures |s| >= 3 && s[|s| - 2] == '-'
  {
    var lead :=
      if row.active then "[[grey]PENDING_" + ToUpper(ActionName(row.action)) + "[-]]"
      else "[" + ColorizeAction(row.action, true) + "] ";
    var word := if !row.active then ColorizeAction(row.action, false) + " " else "";
    var t := ResourceTypeFormat(row.resourceType);
    assert t[|t| - 2] == '-';
    lead + IdCell(row.logicalId) + word + t
  }

  /** The tag an inactive row with this replacement shows. */
  function TagFor(replacement: Replacement): string
  {
    if replacement == ReplacementTrue then ReplaceTag
    else if replacement == Conditional then ReplaceConditionalTag
    else ""
  }

  /** Only inactive rows show a replacement tag. */
  function ReplacementTagOf(row: DisplayRow): string
  {
    if row.active then "" else TagFor(row.replacement)
  }

  /** An active change row ignores the replacement, and so never shows a
      replacement tag, nor the action word. */
  lemma ActiveChangeRowOmitsReplacement(row: DisplayRow, replacement: Replacement)
    requires row.active
    ensures ParseChangeRow(row.(replacement := replacement)) == ParseChangeRow(row)
    ensures ParseChangeRow(row) ==
      "[[grey]PENDING_" + ToUpper(ActionName(row.action)) + "[-]]" + IdCell(row.logicalId)
      + ResourceTypeFormat(row.resourceType) + "\n"
  {
  }

  predicate EndsWith(s: string, suffix: string)
  {
    |suffix| <= |s| && s[|s| - |suffix|..] == suffix
  }

  lemma EndsWithChar(s: string, suffix: string, k: int)
    requires EndsWith(s, suffix) && 1 <= k <= |suffix|
    ensures s[|s| - k] == suffix[|suffix| - k]
  {
    assert s[|s| - |suffix|..][|suffix| - k] == s[|s| - k];
  }

  lemma EndsWithAppended(a: string, b: string)
    ensures EndsWith(a + b, b)
  {
    assert (a + b)[|a|..] == b;
  }

  /** After any head, the plain tag line ends with itself and not with the
      conditional one: they differ nine characters from the end. */
  lemma PlainTagSuffix(h: string)
    ensures EndsWith(h + (ReplaceTag + "\n"), ReplaceTag + "\n")
    ensures !EndsWith(h + (ReplaceTag + "\n"), ReplaceConditionalTag + "\n")
  {
    var plain := ReplaceTag + "\n";
    var cond := ReplaceConditionalTag + "\n";
    var s := h + plain;
    EndsWithAppended(h, plain);
    assert plain[|plain| - 9] == 'e' && cond[|cond| - 9] == 'l';
    EndsWithChar(s, plain, 9);
    if EndsWith(s, cond) { EndsWithChar(s, cond, 9); }
  }

  /** The conditional tag line, symmetrically. */
  lemma ConditionalTagSuffix(h: string)
    ensures EndsWith(h + (ReplaceConditionalTag + "\n"), ReplaceConditionalTag + "\n")
    ensures !EndsWith(h + (ReplaceConditionalTag + "\n"), ReplaceTag + "\n")
  {
    var plain := ReplaceTag + "\n";
    var cond := ReplaceConditionalTag + "\n";
    var s := h + cond;
    EndsWithAppended(h, cond);
    assert plain[|plain| - 9] == 'e' && cond[|cond| - 9] == 'l';
    EndsWithChar(s, cond, 9);
    if EndsWith(s, plain) { EndsWithChar(s, plain, 9); }
  }

  /** A head ending in `-]` followed by a bare newline carries neither tag:
      both tags have `e` where the head has `-`. */
  lemma NoTagSuffix(h: string)
    requires |h| >= 3 && h[|h| - 2] == '-'
    ensures !EndsWith(h + "\n", ReplaceTag + "\n")
    ensures !EndsWith(h + "\n", ReplaceConditionalTag + "\n")
  {
    var plain := ReplaceTag + "\n";
    var cond := ReplaceConditionalTag + "\n";
    var s := h + "\n";
    assert s[|s| - 3] == '-';
    assert plain[|plain| - 3] == 'e' && cond[|cond| - 3] == 'e';
    if EndsWith(s, plain) { EndsWithChar(s, plain, 3); }
    if EndsWith(s, cond) { EndsWithChar(s, cond, 3); }
  }

  /** After a head ending in `-]`, the line ends with each tag exactly when
      that tag was chosen. */
  lemma TagLineSuffix(h: string, replacement: Replacement)
    requires |h| >= 3 && h[|h| - 2] == '-'
    ensures EndsWith(h + (TagFor(replacement) + "\n"), ReplaceTag + "\n") <==> replacement == ReplacementTrue
    ensures EndsWith(h + (TagFor(replacement) + "\n"), ReplaceConditionalTag + "\n") <==> replacement == Conditional
  {
    if replacement == ReplacementTrue {
      PlainTagSuffix(h);
    } else if replacement == Conditional {
      ConditionalTagSuffix(h);
    } else {
      assert h + (TagFor(replacement) + "\n") == h + "\n";
      NoTagSuffix(h);
    }
  }

  /** An inactive change row ends with the red Replace tag exactly when the
      replacement is `True`, and with the yellow conditional tag exactly when
      it is `Conditional`. */
  lemma InactiveChangeRowReplaceTag(row: DisplayRow)
    requires !row.active
    ensures EndsWith(ParseChangeRow(row), ReplaceTag + "\n") <==> row.replacement == ReplacementTrue
    ensures EndsWith(ParseChangeRow(row), ReplaceConditionalTag + "\n") <==> row.replacement == Conditional
  {
    var h := ChangeRowHead(row);
    assert ParseChangeRow(row) == h + (TagFor(row.replacement) + "\n");
    TagLineSuffix(h, row.replacement);
  }

  /** An inactive change row shows the action twice: as its glyph in the
      leading cell and, after the id, as its upper-cased word; then the type
      and the replacement tag. */
  lemma InactiveChangeRowShowsAction(row: DisplayRow)
    requires !row.active
    ensures ParseChangeRow(row) ==
      "[" + ColorizeAction(row.action, true) + "] " + IdCell(row.logicalId)
      + ColorizeAction(row.action, false) + " " + ResourceTypeFormat(row.resourceType)
      + TagFor(row.replacement) + "\n"
  {
    var lead := "[" + ColorizeAction(row.action, true) + "] ";
    var word := ColorizeAction(row.action, false);
    var t := ResourceTypeFormat(row.resourceType);
    assert ChangeRowHead(row) == lead + IdCell(row.logicalId) + (word + " ") + t;
    WordRegroup(lead + IdCell(row.logicalId), word, " ", t, TagFor(row.replacement), "\n");
  }

  /** Opening up a two-part cell in the middle of a line. */
  lemma WordRegroup(a: string, b: string, c: string, d: string, e: string, f: string)
    ensures a + (b + c) + d + e + f == a + b + c + d + e + f
  {
  }

  /** A proposed addition leads with a green plus and names itself as a green
      ADD after the id. */
  lemma InactiveAddRowLayout(row: DisplayRow)
    requires !row.active && row.action == Add
    ensures ParseChangeRow(row) ==
      "[" + ("[green::b]" + "+" + "[-]") + "] " + IdCell(row.logicalId)
      + ("[green::b]" + "ADD" + "[-]") + " " + ResourceTypeFormat(row.resourceType)
      + TagFor(row.replacement) + "\n"
  {
    InactiveChangeRowShowsAction(row);
    ColorizeActionGlyphs();
    ColorizeAddWord();
  }

  // ---------------------------------------------------------------------
  // One line per row

  /** The colour tags fit on one line. */
  lemma ColorTagsAreOneLine(c: Color)
    ensures NoNewline(BoldTag(c)) && NoNewline(EndTag)
  {
  }

  /** The fixed markup of the id cell, the type and the replacement tags
      fits on one line. */
  lemma CellMarkupIsOneLine()
    ensures NoNewline("[#00b8ea]") && NoNewline(" [white]") && NoNewline("[grey::d]")
    ensures NoNewline(ReplaceTag) && NoNewline(ReplaceConditionalTag)
  {
  }

  /** The fixed markup around the lead of a change row fits on one line. */
  lemma LeadMarkupIsOneLine()
    ensures NoNewline("[[grey]PENDING_") && NoNewline("[-]]")
    ensures NoNewline("[") && NoNewline("] ") && NoNewline("]") && NoNewline(" ")
  {
  }

  lemma ColorizeActionIsOneLine(a: ChangeAction, ascii: bool)
    ensures NoNewline(ColorizeAction(a, ascii))
  {
    ColorTagsAreOneLine(ActionColor(a));
    assert NoNewline(ActionName(a));
    CaseMappingKeepsOneLine(ActionName(a));
    var glyph := ChangeSetAscii(a);
    assert NoNewline(glyph);
    var mark := if ascii then glyph else ToUpper(ActionName(a));
    NoNewlineConcat(BoldTag(ActionColor(a)), mark);
    NoNewlineConcat(BoldTag(ActionColor(a)) + mark, EndTag);
  }

  lemma ColorizeStatusIsOneLine(status: Status)
    requires NoNewline(status)
    ensures NoNewline(ColorizeStatus(status))
  {
    ColorTagsAreOneLine(StatusColor(status));
    CaseMappingKeepsOneLine(status);
    NoNewlineConcat(BoldTag(StatusColor(status)), ToUpper(status));
    NoNewlineConcat(BoldTag(StatusColor(status)) + ToUpper(status), EndTag);
  }

  lemma IdCellIsOneLine(logicalId: string)
    requires NoNewline(logicalId)
    ensures NoNewline(IdCell(logicalId))
  {
    CellMarkupIsOneLine();
    NoNewlineConcat("[#00b8ea]", logicalId);
    NoNewlineConcat("[#00b8ea]" + logicalId, " [white]");
  }

  lemma ResourceTypeIsOneLine(resourceType: string)
    requires NoNewline(resourceType)
    ensures NoNewline(ResourceTypeFormat(resourceType))
  {
    CellMarkupIsOneLine();
    ColorTagsAreOneLine(Green);
    ReplaceDoubleColonKeepsOneLine(resourceType);
    CaseMappingKeepsOneLine(ReplaceDoubleColon(resourceType));
    NoNewlineConcat("[grey::d]", TypeLabel(resourceType));
    NoNewlineConcat("[grey::d]" + TypeLabel(resourceType), EndTag);
  }

  /** The lead and the action word of a change row fit on one line. */
  lemma ChangeRowLeadIsOneLine(row: DisplayRow)
    ensures NoNewline(
      if row.active then "[[grey]PENDING_" + ToUpper(ActionName(row.action)) + "[-]]"
      else "[" + ColorizeAction(row.action, true) + "] ")
    ensures NoNewline(if !row.active then ColorizeAction(row.action, false) + " " else "")
  {
    LeadMarkupIsOneLine();
    assert NoNewline(ActionName(row.action));
    CaseMappingKeepsOneLine(ActionName(row.action));
    ColorizeActionIsOneLine(row.action, true);
    ColorizeActionIsOneLine(row.action, false);
    NoNewlineConcat("[[grey]PENDING_", ToUpper(ActionName(row.action)));
    NoNewlineConcat("[[grey]PENDING_" + ToUpper(ActionName(row.action)), "[-]]");
    NoNewlineConcat("[", ColorizeAction(row.action, true));
    NoNewlineConcat("[" + ColorizeAction(row.action, true), "] ");
    NoNewlineConcat(ColorizeAction(row.action, false), " ");
  }

  lemma ChangeRowHeadIsOneLine(row: DisplayRow)
    requires NoNewline(row.logicalId) && NoNewline(row.resourceType)
    ensures NoNewline(ChangeRowHead(row))
  {
    var lead :=
      if row.active then "[[grey]PENDING_" + ToUpper(ActionName(row.action)) + "[-]]"
      else "[" + ColorizeAction(row.action, true) + "] ";
    var word := if !row.active then ColorizeAction(row.action, false) + " " else "";
    ChangeRowLeadIsOneLine(row);
    IdCellIsOneLine(row.logicalId);
    ResourceTypeIsOneLine(row.resourceType);
    NoNewlineConcat(lead, IdCell(row.logicalId));
    NoNewlineConcat(lead + IdCell(row.logicalId), word);
    NoNewlineConcat(lead + IdCell(row.logicalId) + word, ResourceTypeFormat(row.resourceType));
    assert ChangeRowHead(row) == lead + IdCell(row.logicalId) + word + ResourceTypeFormat(row.resourceType);
  }

  /** A change row is one line: when the logical id and the type hold no
      newline, its only newline is the final one. */
  lemma ChangeRowIsOneLine(row: DisplayRow)
    requires NoNewline(row.logicalId) && NoNewline(row.resourceType)
    ensures var s := ParseChangeRow(row);
            |s| > 0 && s[|s| - 1] == '\n' && NoNewline(s[..|s| - 1])
  {
    ChangeRowHeadIsOneLine(row);
    CellMarkupIsOneLine();
    var body := ChangeRowHead(row) + ReplacementTagOf(row);
    NoNewlineConcat(ChangeRowHead(row), ReplacementTagOf(row));
    var s := ParseChangeRow(row);
    assert s == body + "\n";
    assert s[..|s| - 1] == body;
  }

  /** An event row, whatever its source field says. */
  function ParseEventRow(row: DisplayRow): (s: string)
    ensures |s| > 0 && s[|s| - 1] == '\n'
  {
    "[" + ColorizeStatus(row.status) + "]" + IdCell(row.logicalId)
      + ResourceTypeFormat(row.resourceType) + "\n"
  }

  /** An event row leads with the status, upper-cased, in its colour and in
      brackets, followed by the id cell and the type. */
  lemma EventRowShowsStatus(row: DisplayRow)
    ensures ParseEventRow(row) ==
      "[" + BoldTag(StatusColor(row.status)) + ToUpper(row.status) + EndTag + "]"
      + IdCell(row.logicalId) + ResourceTypeFormat(row.resourceType) + "\n"
  {
    BracketRegroup("[", BoldTag(StatusColor(row.status)), ToUpper(row.status), EndTag, "]",
                   IdCell(row.logicalId), ResourceTypeFormat(row.resourceType), "\n");
  }

  /** Opening up a bracketed three-part cell in the middle of a line. */
  lemma BracketRegroup(a: string, b: string, c: string, d: string, e: string, f: string, g: string, h: string)
    ensures a + (b + c + d) + e + f + g + h == a + b + c + d + e + f + g + h
  {
  }

  predicate StartsWith(s: string, prefix: string)
  {
    |prefix| <= |s| && s[..|prefix|] == prefix
  }

  lemma StartsWithChar(s: string, prefix: string, k: int)
    requires StartsWith(s, prefix) && 0 <= k < |prefix|
    ensures s[k] == prefix[k]
  {
    assert s[..|prefix|][k] == s[k];
  }

  /** A line built by appending parts starts with its first two parts. */
  lemma StartsWithLead(a: string, b: string, c: string, d: string, e: string, f: string, g: string, h: string)
    ensures StartsWith(a + b + c + d + e + f + g + h, a + b)
  {
    var s := a + b + c + d + e + f + g + h;
    assert s == (a + b) + (c + d + e + f + g + h);
    assert s[..|a + b|] == a + b;
  }

  /** An event row starts with a bracket and its status colour's tag. */
  lemma EventRowLeadsWithColor(row: DisplayRow)
    ensures StartsWith(ParseEventRow(row), "[" + BoldTag(StatusColor(row.status)))
  {
    EventRowShowsStatus(row);
    StartsWithLead("[", BoldTag(StatusColor(row.status)), ToUpper(row.status), EndTag, "]",
                   IdCell(row.logicalId), ResourceTypeFormat(row.resourceType), "\n");
  }

  /** A line led by a bracketed colour tag starts with the red lead exactly
      when that colour is red. */
  lemma RedLeadOnly(s: string, c: Color)
    requires StartsWith(s, "[" + BoldTag(c))
    ensures StartsWith(s, "[" + "[red::b]") <==> c == Red
  {
    var lead := "[" + BoldTag(c);
    var red := "[" + "[red::b]";
    if c != Red {
      StartsWithChar(s, lead, 2);
      assert lead[2] != 'r';
      if StartsWith(s, red) {
        StartsWithChar(s, red, 2);
        assert false;
      }
    }
  }

  /** The row of a failed event is displayed with a red status: its line
      starts with `[[red::b]`, and the row of any other event does not. */
  lemma NegativeEventRowIsRed(event: StackEvent)
    ensures var s := ParseDisplayRow(CreateDisplayRowFromEvent(event));
            StartsWith(s, "[" + "[red::b]") <==> ContainsStatus(NegativeEventStatus, event.status)
  {
    var row := CreateDisplayRowFromEvent(event);
    EventRowLeadsWithColor(row);
    RedLeadOnly(ParseEventRow(row), StatusColor(row.status));
  }

  /** An event row shows only the status, the logical id and the type. */
  lemma EventRowShowsStatusIdAndType(a: DisplayRow, b: DisplayRow)
    requires a.status == b.status && a.logicalId == b.logicalId && a.resourceType == b.resourceType
    ensures ParseEventRow(a) == ParseEventRow(b)
  {
  }

  /** An event row is one line: when the status, the logical id and the type
      hold no newline, its only newline is the final one. */
  lemma EventRowIsOneLine(row: DisplayRow)
    requires NoNewline(row.status) && NoNewline(row.logicalId) && NoNewline(row.resourceType)
    ensures var s := ParseEventRow(row);
            |s| > 0 && s[|s| - 1] == '\n' && NoNewline(s[..|s| - 1])
  {
    LeadMarkupIsOneLine();
    ColorizeStatusIsOneLine(row.status);
    IdCellIsOneLine(row.logicalId);
    ResourceTypeIsOneLine(row.resourceType);
    var lead := "[" + ColorizeStatus(row.status) + "]";
    NoNewlineConcat("[", ColorizeStatus(row.status));
    NoNewlineConcat("[" + ColorizeStatus(row.status), "]");
    NoNewlineConcat(lead, IdCell(row.logicalId));
    NoNewlineConcat(lead + IdCell(row.logicalId), ResourceTypeFormat(row.resourceType));
    var body := lead + IdCell(row.logicalId) + ResourceTypeFormat(row.resourceType);
    var s := ParseEventRow(row);
    assert s == body + "\n";
    assert s[..|s| - 1] == body;
  }

  /** Change formatting exactly for change-sourced rows, event formatting for
      every other source, including the zero value. */
  function ParseDisplayRow(row: DisplayRow): (s: string)
    ensures row.source == ChangeSource ==> s == ParseChangeRow(row)
    ensures row.source != ChangeSource ==> s == ParseEventRow(row)
    ensures |s| > 0 && s[|s| - 1] == '\n'
  {
    if row.source == ChangeSource then ParseChangeRow(row) else ParseEventRow(row)
  }

  /** The rows at `keys`, in that order, one line each. */
  function RenderRows(keys: seq<string>, rows: map<string, DisplayRow>): string
    requires forall k :: k in keys ==> k in rows
  {
    if |keys| == 0 then ""
    else RenderRows(keys[..|keys| - 1], rows) + ParseDisplayRow(rows[keys[|keys| - 1]])
  }

  lemma RenderRowsSnoc(keys: seq<string>, i: int, rows: map<string, DisplayRow>)
    requires 0 <= i < |keys| && forall k :: k in keys ==> k in rows
    ensures RenderRows(keys[..i + 1], rows) == RenderRows(keys[..i], rows) + ParseDisplayRow(rows[keys[i]])
  {
    assert keys[..i + 1][..i] == keys[..i];
  }

  /** The keys of the map in ascending order. They are drawn from the map in
      an arbitrary order, as Go's map iteration does, and each is placed at
      its sorted position as it arrives. */
  method SortedKeys(rows: map<string, DisplayRow>) returns (keys: seq<string>)
    ensures StrictlySorted(keys) && Elems(keys) == rows.Keys
  {
    keys := [];
    var remaining := rows.Keys;
    while remaining != {}
      invariant StrictlySorted(keys)
      invariant Elems(keys) + remaining == rows.Keys
      invariant Elems(keys) !! remaining
      decreases remaining
    {
      var k :| k in remaining;
      keys := Insert(k, keys);
      remaining := remaining - {k};
    }
  }

  /** Renders every row of the map in ascending order of logical id, one
      line per entry; whatever order the keys were drawn in, the result is
      the same. */
  method ParseDisplayRows(rows: map<string, DisplayRow>) returns (text: string)
    ensures text == RenderRows(SortedOf(rows.Keys), rows)
  {
    var keys := SortedKeys(rows);
    SortedUnique(keys, SortedOf(rows.Keys));
    text := "";
    var i := 0;
    while i < |keys|
      invariant 0 <= i <= |keys|
      invariant text == RenderRows(keys[..i], rows)
    {
      RenderRowsSnoc(keys, i, rows);
      text := text + ParseDisplayRow(rows[keys[i]]);
      i := i + 1;
    }
    assert keys[..|keys|] == keys;
  }
}
