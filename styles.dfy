/**
 * What the page derives from the selection for the embedded SwissBioPics
 * widget: the list of GO ids (its `gos` attribute, comma separated) and the
 * stylesheet block that colours each selected GO region, nine rules per
 * record over the class families `GO<id>`, `mp_GO<id>` and `part_GO<id>`.
 *
 * The text form of an opacity is Python's float formatting; it is a
 * parameter `opacityText` here.
 */
module Styles {
  import opened Records

  // ---------------------------------------------------------------------
  // Decimal text of an id (Python's str on an int)

  function DigitChar(d: int): char
    requires 0 <= d < 10
  {
    "0123456789"[d]
  }

  function DigitValue(c: char): int
  {
    if '0' <= c <= '9' then c as int - '0' as int else 0
  }

  /** The decimal digits of n, most significant first; it starts with a digit, never a sign. */
  function NatText(n: nat): (t: string)
    ensures |t| > 0 && '0' <= t[0] <= '9'
  {
    if n < 10 then [DigitChar(n)] else NatText(n / 10) + [DigitChar(n % 10)]
  }

  function IdText(n: int): (t: string)
    ensures |t| > 0
  {
    if n < 0 then "-" + NatText(-n) else NatText(n)
  }

  /** Reading decimal digits back. */
  function ParseNat(t: string): nat
  {
    if t == [] then 0 else ParseNat(t[..|t| - 1]) * 10 + DigitValue(t[|t| - 1])
  }

  function ParseId(t: string): int
  {
    if |t| > 0 && t[0] == '-' then -(ParseNat(t[1..]) as int) else ParseNat(t)
  }

  lemma {:induction false} ParseNatText(n: nat)
    ensures ParseNat(NatText(n)) == n
  {
    if n >= 10 {
      var t := NatText(n);
      assert t[..|t| - 1] == NatText(n / 10);
      ParseNatText(n / 10);
    }
  }

  lemma ParseNegativeText(m: nat)
    ensures ParseId("-" + NatText(m)) == -(m as int)
  {
    ParseNatText(m);
    var t := NatText(m);
    assert ("-" + t)[0] == '-' && ("-" + t)[1..] == t;
  }

  lemma ParseNonNegativeText(m: nat)
    ensures ParseId(NatText(m)) == m
  {
    ParseNatText(m);
  }

  /** The id text reads back as the id, so distinct ids have distinct texts. */
  lemma ParseIdText(n: int)
    ensures ParseId(IdText(n)) == n
  {
    if n < 0 {
      var m: nat := -n;
      assert IdText(n) == "-" + NatText(m);
      ParseNegativeText(m);
    } else {
      ParseNonNegativeText(n);
    }
  }

  lemma IdTextInjective(m: int, n: int)
    requires IdText(m) == IdText(n)
    ensures m == n
  {
    ParseIdText(m);
    ParseIdText(n);
  }

  // ---------------------------------------------------------------------
  // The widget's id list

  /** `go_ids`: the text of each record's id, in list order. */
  function GoIds(s: seq<Record>): seq<string>
  {
    seq(|s|, i requires 0 <= i < |s| => IdText(s[i].id))
  }

  /** The id list has one entry per record, in order, and no two entries equal on a valid selection. */
  lemma GoIdsFaithful(s: seq<Record>)
    ensures |GoIds(s)| == |s|
    ensures forall i :: 0 <= i < |s| ==> ParseId(GoIds(s)[i]) == s[i].id
    ensures GoIds(s) == [] <==> s == []
    ensures Unique(s) ==> forall i, j :: 0 <= i < j < |s| ==> GoIds(s)[i] != GoIds(s)[j]
  {
    forall i | 0 <= i < |s| ensures ParseId(GoIds(s)[i]) == s[i].id {
      ParseIdText(s[i].id);
    }
    if Unique(s) {
      forall i, j | 0 <= i < j < |s| ensures GoIds(s)[i] != GoIds(s)[j] {
        ParseIdText(s[i].id);
        ParseIdText(s[j].id);
      }
    }
  }

  /** Python's `sep.join(parts)`. */
  function Join(sep: string, parts: seq<string>): string
  {
    if parts == [] then ""
    else if |parts| == 1 then parts[0]
    else parts[0] + sep + Join(sep, parts[1..])
  }

  lemma {:induction false} JoinSnoc(sep: string, parts: seq<string>, p: string)
    requires parts != []
    ensures Join(sep, parts + [p]) == Join(sep, parts) + sep + p
  {
    if |parts| == 1 {
      assert (parts + [p])[1..] == [p];
    } else {
      assert (parts + [p])[1..] == parts[1..] + [p];
      JoinSnoc(sep, parts[1..], p);
    }
  }

  lemma {:induction false} JoinEmpty(sep: string, parts: seq<string>)
    requires forall i :: 0 <= i < |parts| ==> parts[i] != ""
    ensures Join(sep, parts) == "" <==> parts == []
  {
    if |parts| > 1 {
      assert |Join(sep, parts)| >= |parts[0]|;
    }
  }

  /** The `gos` attribute handed to the widget. */
  function GosAttribute(s: seq<Record>): string
  {
    Join(",", GoIds(s))
  }

  /** Appending a record appends its id text, after a comma when there was one already. */
  lemma GosAttributeAppend(s: seq<Record>, rec: Record)
    ensures GosAttribute(s + [rec]) ==
            if s == [] then IdText(rec.id) else GosAttribute(s) + "," + IdText(rec.id)
  {
    assert GoIds(s + [rec]) == GoIds(s) + [IdText(rec.id)];
    if s != [] {
      JoinSnoc(",", GoIds(s), IdText(rec.id));
    }
  }

  // ---------------------------------------------------------------------
  // The stylesheet

  /** The three class families each record colours. */
  const Families: seq<string> := ["GO", "mp_GO", "part_GO"]

  datatype Rule = Rule(selector: string, declarations: string)

  function RuleText(r: Rule): string
  {
    r.selector + " {" + r.declarations + "}"
  }

  /** The three rules for one family: fill and opacity off text, opacity off paths and `.coloured`, a black stroke on `.coloured`. */
  function FamilyRules(family: string, id: string, color: string, opacity: string): seq<Rule>
  {
    [ Rule("svg ." + family + id + " *:not(text)", "fill:" + color + "; opacity:" + opacity + ";"),
      Rule("svg ." + family + id + " *:not(path, .coloured)", "opacity:" + opacity + ";"),
      Rule("svg ." + family + id + " .coloured", "stroke:black;") ]
  }

  /** The nine rules of one record, family by family. */
  function Rules(rec: Record, opacityText: Opacity -> string): (rules: seq<Rule>)
    ensures |rules| == 9
  {
    var id, op := IdText(rec.id), opacityText(rec.opacity);
    FamilyRules("GO", id, rec.color, op)
      + FamilyRules("mp_GO", id, rec.color, op)
      + FamilyRules("part_GO", id, rec.color, op)
  }

  /**
   * Each record gets three rules per class family, each selecting that
   * family's class for the id: fill colour and opacity, opacity, and a
   * black stroke.
   */
  lemma RulesShape(rec: Record, opacityText: Opacity -> string)
    ensures var rules, id := Rules(rec, opacityText), IdText(rec.id);
            forall f :: 0 <= f < 3 ==>
               rules[3 * f].selector == "svg ." + Families[f] + id + " *:not(text)" &&
               rules[3 * f + 1].selector == "svg ." + Families[f] + id + " *:not(path, .coloured)" &&
               rules[3 * f + 2].selector == "svg ." + Families[f] + id + " .coloured" &&
               rules[3 * f].declarations == "fill:" + rec.color + "; opacity:" + opacityText(rec.opacity) + ";" &&
               rules[3 * f + 1].declarations == "opacity:" + opacityText(rec.opacity) + ";" &&
               rules[3 * f + 2].declarations == "stroke:black;"
  {
  }

  /** Rules laid out one per line, each indented by four spaces. */
  function Lines(rules: seq<Rule>): string
  {
    if rules == [] then "" else "    " + RuleText(rules[0]) + "\n" + Lines(rules[1..])
  }

  /** The text block of one record, as the page's template lays it out. */
  function Fragment(rec: Record, opacityText: Opacity -> string): string
  {
    "\n" + Lines(Rules(rec, opacityText)) + "    "
  }

  function Fragments(s: seq<Record>, opacityText: Opacity -> string): seq<string>
  {
    seq(|s|, i requires 0 <= i < |s| => Fragment(s[i], opacityText))
  }

  /** `go_styles`: the records' fragments joined by newlines, in list order. */
  function GoStyles(s: seq<Record>, opacityText: Opacity -> string): string
  {
    Join("\n", Fragments(s, opacityText))
  }

  /** The stylesheet is empty exactly when the selection is. */
  lemma GoStylesEmpty(s: seq<Record>, opacityText: Opacity -> string)
    ensures GoStyles(s, opacityText) == "" <==> s == []
  {
    JoinEmpty("\n", Fragments(s, opacityText));
  }

  /** Appending a record appends its fragment, after a newline when there was one already. */
  lemma GoStylesAppend(s: seq<Record>, rec: Record, opacityText: Opacity -> string)
    ensures GoStyles(s + [rec], opacityText) ==
            if s == [] then Fragment(rec, opacityText)
            else GoStyles(s, opacityText) + "\n" + Fragment(rec, opacityText)
  {
    assert Fragments(s + [rec], opacityText) == Fragments(s, opacityText) + [Fragment(rec, opacityText)];
    if s != [] {
      JoinSnoc("\n", Fragments(s, opacityText), Fragment(rec, opacityText));
    }
  }

  function Flatten(groups: seq<seq<Rule>>): seq<Rule>
  {
    if groups == [] then [] else groups[0] + Flatten(groups[1..])
  }

  lemma SliceAfter(a: seq<Rule>, b: seq<Rule>, x: nat)
    requires x + 9 <= |b|
    ensures (a + b)[|a| + x .. |a| + x + 9] == b[x .. x + 9]
  {
  }

  lemma {:induction false} FlattenNines(groups: seq<seq<Rule>>)
    requires forall i :: 0 <= i < |groups| ==> |groups[i]| == 9
    ensures |Flatten(groups)| == 9 * |groups|
    ensures forall i :: 0 <= i < |groups| ==> Flatten(groups)[9 * i .. 9 * i + 9] == groups[i]
  {
    if groups != [] {
      var first, rest := groups[0], groups[1..];
      FlattenNines(rest);
      var all := Flatten(groups);
      assert all == first + Flatten(rest);
      forall i | 0 <= i < |groups| ensures all[9 * i .. 9 * i + 9] == groups[i] {
        if i == 0 {
          assert all[..9] == first;
        } else {
          assert rest[i - 1] == groups[i];
          SliceAfter(first, Flatten(rest), 9 * (i - 1));
        }
      }
    }
  }

  function RuleGroups(s: seq<Record>, opacityText: Opacity -> string): seq<seq<Rule>>
  {
    seq(|s|, i requires 0 <= i < |s| => Rules(s[i], opacityText))
  }

  /** Every rule of the stylesheet, record by record, in list order. */
  function StyleRules(s: seq<Record>, opacityText: Opacity -> string): seq<Rule>
  {
    Flatten(RuleGroups(s, opacityText))
  }

  /** The stylesheet holds nine rules per record: rules 9 * i to 9 * i + 8 are those of record i. */
  lemma StyleRulesCount(s: seq<Record>, opacityText: Opacity -> string)
    ensures |StyleRules(s, opacityText)| == 9 * |s|
    ensures forall i :: 0 <= i < |s| ==> StyleRules(s, opacityText)[9 * i .. 9 * i + 9] == Rules(s[i], opacityText)
  {
    var groups := RuleGroups(s, opacityText);
    FlattenNines(groups);
    forall i | 0 <= i < |s| ensures StyleRules(s, opacityText)[9 * i .. 9 * i + 9] == Rules(s[i], opacityText) {
      assert groups[i] == Rules(s[i], opacityText);
    }
  }

  /** Fragment i of the stylesheet lays out rules 9 * i to 9 * i + 8 of the stylesheet's rule sequence. */
  lemma FragmentsLayRules(s: seq<Record>, opacityText: Opacity -> string)
    ensures |StyleRules(s, opacityText)| == 9 * |s| && |Fragments(s, opacityText)| == |s|
    ensures forall i :: 0 <= i < |s| ==>
              Fragments(s, opacityText)[i] == "\n" + Lines(StyleRules(s, opacityText)[9 * i .. 9 * i + 9]) + "    "
  {
    StyleRulesCount(s, opacityText);
  }

  // ---------------------------------------------------------------------
  // What the page shows

  datatype Page = NoGoIdsSelected | Widget(gos: string, styles: string)

  /** The page stops with a warning when no GO ids are selected, and otherwise embeds the widget. */
  function Render(s: seq<Record>, opacityText: Opacity -> string): Page
  {
    if GoIds(s) == [] then NoGoIdsSelected
    else Widget(GosAttribute(s), GoStyles(s, opacityText))
  }

  /** The warning shows exactly for an empty selection; otherwise neither attribute is empty. */
  lemma RenderStops(s: seq<Record>, opacityText: Opacity -> string)
    ensures Render(s, opacityText) == NoGoIdsSelected <==> s == []
    ensures s != [] ==> Render(s, opacityText).gos != "" && Render(s, opacityText).styles != ""
  {
    GoIdsFaithful(s);
    JoinEmpty(",", GoIds(s));
    GoStylesEmpty(s, opacityText);
  }

  /** Editing a record leaves the widget's id list as it was. */
  lemma EditKeepsGoIds(s: seq<Record>, id: int, color: string, opacity: Opacity)
    ensures GoIds(Replace(s, id, color, opacity)) == GoIds(s)
  {
  }

  /** After a pasted row, its id is the last entry of the widget's id list, and only there. */
  lemma PasteRowGoIds(s: seq<Record>, row: Row)
    ensures var g := GoIds(PasteRow(s, row));
            |g| > 0 && g[|g| - 1] == IdText(row.id) &&
            forall i :: 0 <= i < |g| - 1 ==> g[i] != IdText(row.id)
  {
    PasteRowEffect(s, row);
    var t := PasteRow(s, row);
    forall i | 0 <= i < |t| - 1 ensures GoIds(t)[i] != IdText(row.id) {
      ParseIdText(t[i].id);
      ParseIdText(row.id);
    }
  }
}
