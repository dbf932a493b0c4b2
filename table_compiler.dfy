/**
 * What the table compiler computes from the lines of the instruction
 * table, stated on values: how each line is classified, split into
 * templates and flags, rewritten and compiled, and which compiled line
 * ends up in each slot of the primary and secondary tables.
 */
module TableCompiler {
  import opened Results
  import opened JavaLang
  import opened Operations
  import opened Templates

  /** The ways a table can be refused. */
  datatype TableError =
    | UnknownMnemonic(name: string)  // `Opcode.valueOf` finds no constant
    | TemplateTooShort(text: string) // a `substring(0, 8)` past the end of the line
    | UnhandledFlags(flags: string)  // text left after deleting every flag name

  /** A line after stripping: ignored, a section header, or an instruction pattern. */
  datatype LineKind = Skip | Section(name: string) | Pattern(text: string)

  /**
   * Blank lines and lines starting with `#` are skipped; `=NAME` names the
   * mnemonic of the lines that follow (stripped and upper-cased); any other
   * line is a pattern, with every whitespace character removed.
   */
  function Classify(line: string): (r: LineKind)
    ensures r.Pattern? ==> |r.text| <= |line|
    ensures r.Section? ==> |r.name| < |line|
  {
    var s := Strip(line);
    if s == [] || s[0] == '#' then Skip
    else if s[0] == '=' then Section(ToUpper(Strip(s[1..])))
    else Pattern(RemoveWhitespace(s))
  }

  /** A line of nothing but whitespace is skipped. */
  lemma BlankLineSkipped(line: string)
    requires forall i :: 0 <= i < |line| ==> IsWhitespace(line[i])
    ensures Classify(line) == Skip
  {
  }

  /** A pattern's text holds no `\s` character. */
  lemma PatternHasNoWhitespace(line: string)
    requires Classify(line).Pattern?
    ensures forall i :: 0 <= i < |Classify(line).text| ==> !IsRegexSpace(Classify(line).text[i])
  {
    var s := Strip(line);
    assert Classify(line).text == RemoveWhitespace(s);
  }

  /** A section name holds no lower-case ASCII letter. */
  lemma SectionNameUpperCase(line: string)
    requires Classify(line).Section?
    ensures forall i :: 0 <= i < |Classify(line).name| ==> !('a' <= Classify(line).name[i] <= 'z')
  {
    var s := Strip(line);
    var n := Strip(s[1..]);
    assert Classify(line).name == ToUpper(n);
    forall i | 0 <= i < |n|
      ensures !('a' <= ToUpper(n)[i] <= 'z')
    {
      UpperCharNotLower(n[i]);
    }
  }

  lemma UpperCharNotLower(c: char)
    ensures !('a' <= UpperChar(c) <= 'z')
  {
  }

  /** Indentation does not change how a line is read. */
  lemma LeadingWhitespaceIgnored(ws: string, line: string)
    requires forall i :: 0 <= i < |ws| ==> IsWhitespace(ws[i])
    ensures Classify(ws + line) == Classify(line)
  {
    StripLeadingSkips(ws, line);
  }

  lemma {:induction false} StripLeadingSkips(ws: string, line: string)
    requires forall i :: 0 <= i < |ws| ==> IsWhitespace(ws[i])
    ensures StripLeading(ws + line) == StripLeading(line)
  {
    if ws != [] {
      var t := ws + line;
      assert t[0] == ws[0] && IsWhitespace(t[0]);
      assert t[1..] == ws[1..] + line;
      assert StripLeading(t) == StripLeading(t[1..]);
      StripLeadingSkips(ws[1..], line);
    } else {
      assert ws + line == line;
    }
  }

  /** A pattern's first-byte template, optional second-byte template, and the flag text after them. */
  datatype Split = Split(first: Template, second: Option<Template>, rest: string)

  /**
   * The first eight characters are the first-byte template; when what
   * follows starts with `md`, its first eight characters are the
   * second-byte template.
   */
  function SplitTemplates(text: string): (r: Result<Split, TableError>)
    ensures r.Err? <==> |text| < 8 || (StartsWith(text[8..], "md") && |text| < 16)
    ensures r.Ok? ==> r.value.second.Some? == StartsWith(text[8..], "md")
    ensures r.Ok? ==> text == r.value.first + (if r.value.second.Some? then r.value.second.value else "") + r.value.rest
  {
    if |text| < 8 then Err(TemplateTooShort(text))
    else
      var line := text[8..];
      if StartsWith(line, "md") then
        if |line| < 8 then Err(TemplateTooShort(text))
        else
          assert text == text[..8] + line[..8] + line[8..];
          Ok(Split(text[..8], Some(line[..8]), line[8..]))
      else
        assert text == text[..8] + line;
        Ok(Split(text[..8], None, line))
  }

  // ---------------------------------------------------------------------
  // Flags

  /** The flags collected so far and the text not yet consumed. */
  datatype FlagScan = FlagScan(flags: set<OpcodeFlag>, rest: string)

  /**
   * The state after the flag loop has visited the first `n` constants in
   * declaration order: each name that occurs in the remaining text is
   * added and all its occurrences deleted.
   */
  function ScanFlags(order: seq<OpcodeFlag>, s: string, n: nat): (r: FlagScan)
    requires n <= |order|
    ensures |r.rest| <= |s|
  {
    if n == 0 then FlagScan({}, s)
    else
      var prev := ScanFlags(order, s, n - 1);
      var name := Name(order[n - 1]);
      if Contains(prev.rest, name) then FlagScan(prev.flags + {order[n - 1]}, DeleteAll(prev.rest, name))
      else prev
  }

  /** The upper-cased remainder is accepted only if every character belongs to a recognised flag name. */
  function ParseFlags(order: seq<OpcodeFlag>, rest: string): (r: Result<set<OpcodeFlag>, TableError>)
    ensures r.Err? ==> r.error == UnhandledFlags(rest)
    ensures r.Ok? ==> forall f :: f in r.value ==> exists i :: 0 <= i < |order| && order[i] == f
  {
    var scan := ScanFlags(order, ToUpper(rest), |order|);
    ScanFlagsFromOrder(order, ToUpper(rest), |order|);
    if scan.rest != "" then Err(UnhandledFlags(rest)) else Ok(scan.flags)
  }

  /**
   * A constant is collected exactly when its name occurs in the text left
   * by the constants before it.
   */
  lemma ScanFlagsCollects(order: seq<OpcodeFlag>, s: string, n: nat, k: nat)
    requires k < n <= |order| && ValidFlagOrder(order)
    ensures order[k] in ScanFlags(order, s, n).flags <==> Contains(ScanFlags(order, s, k).rest, Name(order[k]))
  {
    ValidOrderDistinct(order);
    CollectsDistinct(order, s, n, k);
  }

  /** Constants with distinct names are distinct. */
  lemma ValidOrderDistinct(order: seq<OpcodeFlag>)
    requires ValidFlagOrder(order)
    ensures Distinct(order)
  {
    forall i, j | 0 <= i < j < |order|
      ensures order[i] != order[j]
    {
      assert Name(order[i]) != Name(order[j]);
    }
  }

  predicate Distinct(order: seq<OpcodeFlag>) {
    forall i, j :: 0 <= i < j < |order| ==> order[i] != order[j]
  }

  lemma {:induction false} CollectsDistinct(order: seq<OpcodeFlag>, s: string, n: nat, k: nat)
    requires k < n <= |order| && Distinct(order)
    ensures order[k] in ScanFlags(order, s, n).flags <==> Contains(ScanFlags(order, s, k).rest, Name(order[k]))
  {
    ScanStep(order, s, n);
    if n - 1 > k {
      CollectsDistinct(order, s, n - 1, k);
      assert order[n - 1] != order[k];
    } else {
      NotYetCollected(order, s, k, k);
    }
  }

  /** One visit of the flag loop adds at most the constant visited. */
  lemma ScanStep(order: seq<OpcodeFlag>, s: string, n: nat)
    requires 0 < n <= |order|
    ensures var prev := ScanFlags(order, s, n - 1);
      ScanFlags(order, s, n).flags == prev.flags + (if Contains(prev.rest, Name(order[n - 1])) then {order[n - 1]} else {})
  {
  }

  /** Only constants of the enumeration visited so far are collected. */
  lemma {:induction false} ScanFlagsFromOrder(order: seq<OpcodeFlag>, s: string, n: nat)
    requires n <= |order|
    ensures forall f :: f in ScanFlags(order, s, n).flags ==> exists i :: 0 <= i < n && order[i] == f
  {
    if n > 0 {
      ScanFlagsFromOrder(order, s, n - 1);
      forall f | f in ScanFlags(order, s, n).flags
        ensures exists i :: 0 <= i < n && order[i] == f
      {
        if f !in ScanFlags(order, s, n - 1).flags {
          assert order[n - 1] == f;
        }
      }
    }
  }

  /** Deleting a name that occurs removes at least one character. */
  lemma {:induction false} DeleteAllShortens(s: string, p: string)
    requires |p| > 0 && Contains(s, p)
    ensures |DeleteAll(s, p)| < |s|
    decreases |s|
  {
    ContainsIff(s, p);
    if s[..|p|] != p {
      assert !StartsWith(s, p);
      DeleteAllShortens(s[1..], p);
    }
  }

  /** The remaining text only shrinks, and shrinks with every flag collected. */
  lemma {:induction false} ScanFlagsShrinks(order: seq<OpcodeFlag>, s: string, n: nat)
    requires n <= |order| && ValidFlagOrder(order)
    ensures |ScanFlags(order, s, n).rest| + |ScanFlags(order, s, n).flags| <= |s|
  {
    if n > 0 {
      ScanFlagsShrinks(order, s, n - 1);
      var prev := ScanFlags(order, s, n - 1);
      var name := Name(order[n - 1]);
      if Contains(prev.rest, name) {
        DeleteAllShortens(prev.rest, name);
        ValidOrderDistinct(order);
        NotYetCollected(order, s, n - 1, n - 1);
      }
    }
  }

  /** A constant is not collected before the loop reaches it. */
  lemma {:induction false} NotYetCollected(order: seq<OpcodeFlag>, s: string, n: nat, k: nat)
    requires n <= k < |order| && Distinct(order)
    ensures order[k] !in ScanFlags(order, s, n).flags
  {
    if n > 0 {
      NotYetCollected(order, s, n - 1, k);
      assert order[n - 1] != order[k];
    }
  }

  /** A pattern with nothing after its templates has no flags and is accepted. */
  lemma NoFlagText(order: seq<OpcodeFlag>)
    requires ValidFlagOrder(order)
    ensures ParseFlags(order, "") == Ok({})
  {
    EmptyTail(order, "", {}, 0, |order|);
  }

  /** Text in which no flag name occurs is rejected exactly when it is not empty. */
  lemma {:induction false} NoNameScan(order: seq<OpcodeFlag>, s: string, n: nat)
    requires n <= |order|
    requires forall i :: 0 <= i < |order| ==> !Contains(s, Name(order[i]))
    ensures ScanFlags(order, s, n) == FlagScan({}, s)
  {
    if n > 0 {
      NoNameScan(order, s, n - 1);
    }
  }

  lemma UnknownFlagText(order: seq<OpcodeFlag>, rest: string)
    requires forall i :: 0 <= i < |order| ==> !Contains(ToUpper(rest), Name(order[i]))
    ensures ParseFlags(order, rest).Err? <==> rest != ""
  {
    NoNameScan(order, ToUpper(rest), |order|);
  }

  /**
   * A remainder that upper-cases to one constant's name, when no other
   * constant's name occurs inside it, is accepted with exactly that flag.
   */
  lemma SingleFlag(order: seq<OpcodeFlag>, rest: string, k: nat)
    requires ValidFlagOrder(order) && k < |order|
    requires ToUpper(rest) == Name(order[k])
    requires forall i :: 0 <= i < |order| && i != k ==> !Contains(Name(order[k]), Name(order[i]))
    ensures ParseFlags(order, rest) == Ok({order[k]})
  {
    var s := ToUpper(rest);
    NothingBefore(order, s, k);
    WholeNameDeleted(order, s, k);
    EmptyTail(order, s, {order[k]}, k + 1, |order|);
  }

  /** No constant before the k-th collects anything from the k-th's name. */
  lemma NothingBefore(order: seq<OpcodeFlag>, s: string, k: nat)
    requires k < |order| && s == Name(order[k])
    requires forall i :: 0 <= i < |order| && i != k ==> !Contains(Name(order[k]), Name(order[i]))
    ensures ScanFlags(order, s, k) == FlagScan({}, s)
  {
    var pre := order[..k];
    forall i | 0 <= i < |pre|
      ensures !Contains(s, Name(pre[i]))
    {
      assert pre[i] == order[i];
    }
    NoNameScan(pre, s, k);
    ScanPrefix(order, s, k);
  }

  /** The k-th constant, meeting exactly its own name, collects itself and leaves nothing. */
  lemma WholeNameDeleted(order: seq<OpcodeFlag>, s: string, k: nat)
    requires ValidFlagOrder(order) && k < |order| && s == Name(order[k])
    requires ScanFlags(order, s, k) == FlagScan({}, s)
    ensures ScanFlags(order, s, k + 1) == FlagScan({order[k]}, "")
  {
    assert Name(order[k]) != "";
    assert StartsWith(s, s);
    assert DeleteAll(s, s) == "" by {
      assert s[..|s|] == s;
      assert s[|s|..] == "";
    }
  }

  /** A scan of a prefix of the order matches the scan of the whole order up to that point. */
  lemma {:induction false} ScanPrefix(order: seq<OpcodeFlag>, s: string, n: nat)
    requires n <= |order|
    ensures ScanFlags(order[..n], s, n) == ScanFlags(order, s, n)
  {
    ScanPrefixGeneral(order, s, n, n);
  }

  lemma {:induction false} ScanPrefixGeneral(order: seq<OpcodeFlag>, s: string, m: nat, n: nat)
    requires n <= m <= |order|
    ensures ScanFlags(order[..m], s, n) == ScanFlags(order, s, n)
  {
    if n > 0 {
      ScanPrefixGeneral(order, s, m, n - 1);
      assert order[..m][n - 1] == order[n - 1];
    }
  }

  /** Once the text is empty, later constants collect nothing. */
  lemma {:induction false} EmptyTail(order: seq<OpcodeFlag>, s: string, flags: set<OpcodeFlag>, from: nat, n: nat)
    requires ValidFlagOrder(order) && from <= n <= |order|
    requires ScanFlags(order, s, from) == FlagScan(flags, "")
    ensures ScanFlags(order, s, n) == FlagScan(flags, "")
  {
    if n > from {
      EmptyTail(order, s, flags, from, n - 1);
      assert Name(order[n - 1]) != "";
      assert !Contains("", Name(order[n - 1]));
    }
  }

  // ---------------------------------------------------------------------
  // Field-letter rewrites

  /** `reg` and the ESC operand `xxx` become the register field, `sr` the segment field. */
  function RewriteOpcodeByte(t: Template): Template {
    Replace(Replace(Replace(t, "reg", "rrr"), "sr", "gg"), "xxx", "rrr")
  }

  /** `md` becomes the mode field, `r/m` the rm field, `reg` the register field, `sr` and the ESC operand `yyy` the segment field. */
  function RewriteModRegRmByte(t: Template): Template {
    Replace(Replace(Replace(Replace(Replace(t, "md", "mm"), "r/m", "nnn"), "reg", "rrr"), "sr", "gg"), "yyy", "ggg")
  }

  // ---------------------------------------------------------------------
  // Compiled lines and the tables they fill

  /** The matchers one pattern line compiles to. */
  datatype Entry = Entry(opcode: OpcodeMatcher, modRegRm: Option<ModRegRmMatcher>)

  /**
   * Both templates compiled; the operation goes to the second matcher when
   * there is one and to the first otherwise. The second compilation starts
   * from the register and segment fields the first one collected.
   */
  function CompileEntry(first: Template, second: Option<Template>, op: Op): (e: Entry)
    ensures e.modRegRm.Some? <==> second.Some?
    ensures e.opcode.op == (if second.None? then Some(op) else None)
    ensures e.modRegRm.Some? ==> e.modRegRm.value.op == op
  {
    var o := OpcodeMatcherOf(RewriteOpcodeByte(first), if second.None? then Some(op) else None);
    match second
    case None => Entry(o, None)
    case Some(t) => Entry(o, Some(ModRegRmMatcherOf(RewriteModRegRmByte(t), o.regMask, o.regShift, o.segMask, o.segShift, op)))
  }

  /**
   * The second matcher's register and segment masks contain the first
   * template's; when the second template has no register letter, it keeps
   * the first template's register mask and shift unchanged.
   */
  lemma SecondMatcherKeepsFirstFields(first: Template, t: Template, op: Op)
    ensures var e := CompileEntry(first, Some(t), op);
      e.modRegRm.value.regMask & e.opcode.regMask == e.opcode.regMask &&
      e.modRegRm.value.segMask & e.opcode.segMask == e.opcode.segMask
    ensures var e := CompileEntry(first, Some(t), op);
      (forall p :: 0 <= p < 8 ==> RewriteModRegRmByte(t)[p] != 'r') ==>
        e.modRegRm.value.regMask == e.opcode.regMask && e.modRegRm.value.regShift == e.opcode.regShift
  {
    var e := CompileEntry(first, Some(t), op);
    var t2 := RewriteModRegRmByte(t);
    LastShiftIsRightmost(t2, 8, 'r', e.opcode.regShift);
    if forall p :: 0 <= p < 8 ==> t2[p] != 'r' {
      AbsentLetterMask(t2, 'r');
    }
  }

  /**
   * The ESC line: `xxx` in the first byte becomes a register field in
   * bits 2..0, and the second matcher, whose own template names `yyy` as
   * the segment field in bits 5..3, inherits that register mask, so the
   * register is later read from bits 2..0 of the second byte.
   */
  lemma EscInheritsRegisterField(first: Template, second: Template, op: Op)
    requires first == "11011xxx" && second == "mdyyyr/m"
    ensures var e := CompileEntry(first, Some(second), op);
      e.opcode.regMask == 0x07 && e.opcode.regShift == 0 &&
      e.modRegRm.value.regMask == 0x07 && e.modRegRm.value.regShift == 0 &&
      e.modRegRm.value.segMask == 0x38 && e.modRegRm.value.segShift == 3 &&
      e.modRegRm.value.rmMask == 0x07 && e.modRegRm.value.modMask == 0xC0
  {
    EscFirstTemplate(first);
    EscSecondTemplate(second);
    EscFirstFields();
    EscSecondFields();
  }

  lemma EscFirstFields()
    ensures MaskOf("11011rrr", 8, 'r') == 0x07 && LastShift("11011rrr", 8, 'r', 0) == 0
    ensures MaskOf("11011rrr", 8, 'g') == 0 && LastShift("11011rrr", 8, 'g', 0) == 0
  {
  }

  lemma EscSecondFields()
    ensures MaskOf("mmgggnnn", 8, 'r') == 0 && LastShift("mmgggnnn", 8, 'r', 0) == 0
    ensures MaskOf("mmgggnnn", 8, 'g') == 0x38 && LastShift("mmgggnnn", 8, 'g', 0) == 3
    ensures MaskOf("mmgggnnn", 8, 'n') == 0x07 && MaskOf("mmgggnnn", 8, 'm') == 0xC0
  {
  }

  lemma EscFirstTemplate(t: Template)
    requires t == "11011xxx"
    ensures RewriteOpcodeByte(t) == "11011rrr"
  {
    Unchanged(t, "reg", "rrr");
    Unchanged(t, "sr", "gg");
    EscStep(Replace(Replace(t, "reg", "rrr"), "sr", "gg"), "11011", "xxx", "", "rrr");
  }

  lemma EscSecondTemplate(t: Template)
    requires t == "mdyyyr/m"
    ensures RewriteModRegRmByte(t) == "mmgggnnn"
  {
    var s1 := Replace(t, "md", "mm");
    EscModeStep(t, "md", "mm", "yyyr/", "m");
    var s2 := Replace(s1, "r/m", "nnn");
    EscRmSegmentSteps(s1);
    Unchanged(s2, "reg", "rrr");
    Unchanged(s2, "sr", "gg");
  }

  /** The `r/m` and `yyy` rewrites of the ESC second template, each on text with a single occurrence. */
  lemma EscRmSegmentSteps(s1: string)
    requires s1 == "mmyyyr/m"
    ensures Replace(s1, "r/m", "nnn") == "mmyyynnn"
    ensures Replace(Replace(s1, "r/m", "nnn"), "yyy", "ggg") == "mmgggnnn"
  {
    EscStep(s1, "mmyyy", "r/m", "", "nnn");
    var s2 := Replace(s1, "r/m", "nnn");
    EscStep(s2, "mm", "yyy", "nnn", "ggg");
  }

  lemma EscModeStep(t: string, p: string, q: string, a: string, b: string)
    requires t == "mdyyyr/m" && p == "md" && q == "mm" && a == "yyyr/" && b == "m"
    ensures Replace(t, p, q) == "mmyyyr/m"
  {
    ReplaceAtFront(p, a + b, q);
    ReplaceSkipsPrefix(a, b, p, q);
    assert t == p + (a + b);
    assert Replace(b, p, q) == b;
    assert q + (a + b) == "mmyyyr/m";
  }

  /** One rewrite step of the ESC templates, on text with a single occurrence. */
  lemma EscStep(t: string, a: string, p: string, b: string, q: string)
    requires t == a + p + b && |p| > 0
    requires forall i :: 0 <= i < |a| ==> a[i] != p[0]
    requires !Contains(b, p)
    ensures Replace(t, p, q) == a + q + b
  {
    ReplaceOnce(a, p, b, q);
  }

  /** A pattern whose first character does not occur leaves the text as it is. */
  lemma Unchanged(s: string, p: string, q: string)
    requires |p| > 0 && forall i :: 0 <= i < |s| ==> s[i] != p[0]
    ensures Replace(s, p, q) == s
  {
    ReplaceSkipsPrefix(s, "", p, q);
    assert s + "" == s;
  }

  /** The mnemonic in effect and the lines compiled so far. */
  datatype TableState = TableState(opcode: Option<Opcode>, entries: seq<Entry>)

  /** The effect of one line on the compiler's state. */
  function CompileLine(declared: set<string>, order: seq<OpcodeFlag>, st: TableState, line: string): (r: Result<TableState, TableError>)
    ensures r.Ok? ==> |r.value.entries| <= |st.entries| + 1
  {
    match Classify(line)
    case Skip => Ok(st)
    case Section(name) =>
      (match OpcodeValueOf(declared, name)
       case None => Err(UnknownMnemonic(name))
       case Some(code) => Ok(st.(opcode := Some(code))))
    case Pattern(text) =>
      var split :- SplitTemplates(text);
      var flags :- ParseFlags(order, split.rest);
      Ok(st.(entries := st.entries + [CompileEntry(split.first, split.second, Op(st.opcode, flags))]))
  }

  /** The compiler's state after the first `n` lines; the first error stops it. */
  function CompileUpTo(declared: set<string>, order: seq<OpcodeFlag>, lines: seq<string>, n: nat): (r: Result<TableState, TableError>)
    requires n <= |lines|
    ensures r.Ok? ==> |r.value.entries| <= n
  {
    if n == 0 then Ok(TableState(None, []))
    else
      match CompileUpTo(declared, order, lines, n - 1)
      case Err(e) => Err(e)
      case Ok(st) => CompileLine(declared, order, st, lines[n - 1])
  }

  /** An error on some line is the result of the whole table. */
  lemma {:induction false} ErrorPersists(declared: set<string>, order: seq<OpcodeFlag>, lines: seq<string>, k: nat, n: nat)
    requires k <= n <= |lines| && CompileUpTo(declared, order, lines, k).Err?
    ensures CompileUpTo(declared, order, lines, n) == CompileUpTo(declared, order, lines, k)
  {
    if n > k {
      ErrorPersists(declared, order, lines, k, n - 1);
    }
  }

  /** Each line adds at most one entry, one exactly when it is a pattern line. */
  lemma LineAddsEntry(declared: set<string>, order: seq<OpcodeFlag>, st: TableState, line: string)
    requires CompileLine(declared, order, st, line).Ok?
    ensures var next := CompileLine(declared, order, st, line).value;
      if Classify(line).Pattern? then |next.entries| == |st.entries| + 1 && next.entries[..|st.entries|] == st.entries
      else next.entries == st.entries
  {
  }

  /** The primary slot of byte `i`: the opcode matcher of the last entry whose first template matches `i`. */
  function LastPrimary(entries: seq<Entry>, i: bv8): (r: Option<OpcodeMatcher>)
    ensures r.Some? ==> r.value.Matches(i)
  {
    if entries == [] then None
    else
      var e := entries[|entries| - 1];
      if e.opcode.Matches(i) then Some(e.opcode) else LastPrimary(entries[..|entries| - 1], i)
  }

  /** The entry is a two-template line whose first template matches `i` and whose second accepts `j << 3`. */
  predicate FillsSecondary(e: Entry, i: bv8, j: bv8) {
    e.opcode.Matches(i) && e.modRegRm.Some? && e.modRegRm.value.MatchesReg(j)
  }

  /** Secondary entry [i][j]: the second matcher of the last entry that fills it. */
  function LastSecondary(entries: seq<Entry>, i: bv8, j: bv8): (r: Option<ModRegRmMatcher>)
    ensures r.Some? ==> r.value.MatchesReg(j)
  {
    if entries == [] then None
    else
      var e := entries[|entries| - 1];
      if FillsSecondary(e, i, j) then e.modRegRm else LastSecondary(entries[..|entries| - 1], i, j)
  }

  /**
   * Later lines overwrite earlier ones: the primary slot of `i` is empty
   * exactly when no entry matches `i`, and otherwise holds the matcher of
   * the last entry that does.
   */
  lemma {:induction false} LastPrimaryIsLastMatch(entries: seq<Entry>, i: bv8)
    ensures LastPrimary(entries, i).None? <==> forall k :: 0 <= k < |entries| ==> !entries[k].opcode.Matches(i)
    ensures LastPrimary(entries, i).Some? ==> exists k :: (0 <= k < |entries| && entries[k].opcode.Matches(i) &&
      LastPrimary(entries, i) == Some(entries[k].opcode) &&
      forall k' :: k < k' < |entries| ==> !entries[k'].opcode.Matches(i))
  {
    if entries != [] {
      var n := |entries| - 1;
      var prefix := entries[..n];
      LastPrimaryIsLastMatch(prefix, i);
      assert forall k :: 0 <= k < n ==> prefix[k] == entries[k];
      if entries[n].opcode.Matches(i) {
        assert LastPrimary(entries, i) == Some(entries[n].opcode);
      } else {
        assert LastPrimary(entries, i) == LastPrimary(prefix, i);
        if LastPrimary(prefix, i).Some? {
          var k :| 0 <= k < n && prefix[k].opcode.Matches(i) && LastPrimary(prefix, i) == Some(prefix[k].opcode) &&
            forall k' :: k < k' < n ==> !prefix[k'].opcode.Matches(i);
          assert entries[k].opcode.Matches(i);
          assert forall k' :: k < k' < |entries| ==> !entries[k'].opcode.Matches(i);
        } else {
          assert forall k :: 0 <= k < |entries| ==> !entries[k].opcode.Matches(i);
        }
      }
    }
  }

  /**
   * Secondary entry [i][j] is empty exactly when no two-template entry
   * matches `i` with its first template and accepts `j << 3` with its
   * second, and otherwise holds the second matcher of the last one.
   */
  lemma {:induction false} LastSecondaryIsLastMatch(entries: seq<Entry>, i: bv8, j: bv8)
    ensures LastSecondary(entries, i, j).None? <==> forall k :: 0 <= k < |entries| ==> !FillsSecondary(entries[k], i, j)
    ensures LastSecondary(entries, i, j).Some? ==> exists k :: (0 <= k < |entries| && FillsSecondary(entries[k], i, j) &&
      LastSecondary(entries, i, j) == entries[k].modRegRm &&
      forall k' :: k < k' < |entries| ==> !FillsSecondary(entries[k'], i, j))
  {
    if entries != [] {
      var n := |entries| - 1;
      var prefix := entries[..n];
      LastSecondaryIsLastMatch(prefix, i, j);
      assert forall k :: 0 <= k < n ==> prefix[k] == entries[k];
      if FillsSecondary(entries[n], i, j) {
        assert LastSecondary(entries, i, j) == entries[n].modRegRm;
      } else {
        assert LastSecondary(entries, i, j) == LastSecondary(prefix, i, j);
        if LastSecondary(prefix, i, j).Some? {
          var k :| 0 <= k < n && FillsSecondary(prefix[k], i, j) && LastSecondary(prefix, i, j) == prefix[k].modRegRm &&
            forall k' :: k < k' < n ==> !FillsSecondary(prefix[k'], i, j);
          assert FillsSecondary(entries[k], i, j);
          assert forall k' :: k < k' < |entries| ==> !FillsSecondary(entries[k'], i, j);
        } else {
          assert forall k :: 0 <= k < |entries| ==> !FillsSecondary(entries[k], i, j);
        }
      }
    }
  }

  /** A new last line takes each slot its first template matches and leaves the others as they were. */
  lemma LastPrimaryAppend(entries: seq<Entry>, e: Entry, i: bv8)
    ensures LastPrimary(entries + [e], i) == if e.opcode.Matches(i) then Some(e.opcode) else LastPrimary(entries, i)
  {
    assert (entries + [e])[..|entries|] == entries;
  }

  /** A new last line takes each secondary entry it fills and leaves the others as they were. */
  lemma LastSecondaryAppend(entries: seq<Entry>, e: Entry, i: bv8, j: bv8)
    ensures LastSecondary(entries + [e], i, j) == if FillsSecondary(e, i, j) then e.modRegRm else LastSecondary(entries, i, j)
  {
    assert (entries + [e])[..|entries|] == entries;
  }

  /** A filled secondary entry lies behind a filled primary slot of a two-template line. */
  lemma {:induction false} SecondaryNeedsPrimary(entries: seq<Entry>, i: bv8, j: bv8)
    requires LastSecondary(entries, i, j).Some?
    ensures LastPrimary(entries, i).Some?
  {
    var n := |entries| - 1;
    if !FillsSecondary(entries[n], i, j) {
      SecondaryNeedsPrimary(entries[..n], i, j);
    }
  }
}
