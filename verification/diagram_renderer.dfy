/** The diagram renderer: turns the explorer's model-info records into Mermaid `erDiagram`
    text: an opening fence, one table block per record, one relationship line per table pair
    (or a placeholder line per unresolved polymorphic record), a closing fence. */
module DiagramRenderer {
  import opened Wrappers
  import opened SeqUtil
  import opened SchemaModel
  import opened AssociationExplorer

  const OpenFence: string := "```mermaid"
  const Keyword: string := "erDiagram"
  const CloseFence: string := "```"

  /** `mermaid_type`: the diagram type shown for a column type symbol. */
  function MermaidType(colType: string): (r: string)
    ensures r in {"int", "float", "datetime", "boolean", "string"}
    ensures r == "int" <==> colType == "integer"
    ensures r == "float" <==> colType in {"float", "decimal"}
    ensures r == "datetime" <==> colType in {"datetime", "date", "time", "timestamp"}
    ensures r == "boolean" <==> colType == "boolean"
  {
    match colType
    case "integer" => "int"
    case "float" => "float"
    case "decimal" => "float"
    case "datetime" => "datetime"
    case "date" => "datetime"
    case "time" => "datetime"
    case "timestamp" => "datetime"
    case "boolean" => "boolean"
    case _ => "string"
  }

  /** One column line of a table block. */
  function ColumnLine(c: Column): string {
    "        " + MermaidType(c.colType) + " " + c.name
  }

  /** The lines of `build_table_definition`'s block, before they are joined. */
  function TableLines(info: ModelInfo): (r: seq<string>)
    ensures |r| == |info.columns| + 2
    ensures r[0] == "    " + info.table + " {" && r[|r| - 1] == "    }"
    ensures forall i :: 0 <= i < |info.columns| ==> r[i + 1] == ColumnLine(info.columns[i])
  {
    ["    " + info.table + " {"]
      + seq(|info.columns|, i requires 0 <= i < |info.columns| => ColumnLine(info.columns[i]))
      + ["    }"]
  }

  /** `build_table_definition`: one table block as a single (multi-line) string. Unless a
      name holds a line break, it reads back as the header line, one line per column in
      order, and the closing brace. */
  function TableDefinition(info: ModelInfo): (r: string)
    ensures LineFree(info.table) && (forall c :: c in info.columns ==> LineFree(c.name)) ==>
      SplitLines(r) == TableLines(info)
  {
    TableLinesReadBack(info);
    JoinLines(TableLines(info))
  }

  /** The connector drawn between the two table names, with its surrounding spaces. */
  function Connector(macro: Macro): string {
    match macro
    case BelongsTo => " |{--|| "
    case HasMany => " ||--|{ "
    case _ => " ||--|| "
  }

  /** The quoted cardinality label after the target table: only `belongs_to` and `has_many`
      are told apart, and only they carry the polymorphic qualifier. */
  function Label(macro: Macro, poly: bool): string {
    match macro
    case BelongsTo => if poly then " : \"N:1 (poly)\"" else " : \"N:1\""
    case HasMany => if poly then " : \"1:N (poly)\"" else " : \"1:N\""
    case _ => " : \"1:1\""
  }

  /** `mermaid_relation`: the connector depends on the association kind alone, the label on
      the kind and the polymorphic flag, and the two table names sit between them. */
  function MermaidRelation(macro: Macro, src: string, dst: string, poly: bool): (r: string)
    ensures r == src + Connector(macro) + dst + Label(macro, poly)
  {
    match macro
    case BelongsTo =>
      if poly then src + " |{--|| " + dst + " : \"N:1 (poly)\""
      else src + " |{--|| " + dst + " : \"N:1\""
    case HasMany =>
      if poly then src + " ||--|{ " + dst + " : \"1:N (poly)\""
      else src + " ||--|{ " + dst + " : \"1:N\""
    case _ => src + " ||--|| " + dst + " : \"1:1\""
  }

  /** Every kind but `belongs_to` and `has_many` (so `has_one` and `has_and_belongs_to_many`)
      is drawn one-to-one, and the polymorphic flag changes the line exactly for the two kinds
      that are told apart. */
  lemma RelationNotation(src: string, dst: string)
    ensures forall m: Macro, poly: bool :: m != BelongsTo && m != HasMany ==>
      MermaidRelation(m, src, dst, poly) == src + " ||--|| " + dst + " : \"1:1\""
    ensures forall m: Macro ::
      MermaidRelation(m, src, dst, true) != MermaidRelation(m, src, dst, false) <==> m == BelongsTo || m == HasMany
  {
    forall m: Macro
      ensures MermaidRelation(m, src, dst, true) != MermaidRelation(m, src, dst, false) <==> m == BelongsTo || m == HasMany
    {
      if m == BelongsTo || m == HasMany {
        assert |Label(m, true)| != |Label(m, false)|;
      }
    }
  }

  /** The two kinds whose lines `mermaid_relation` tells apart. */
  predicate ToldApart(m: Macro) {
    m == BelongsTo || m == HasMany
  }

  lemma NotationParts(m: Macro)
    ensures |Connector(m)| == 8
    ensures Connector(m) == " ||--|| " <==> !ToldApart(m)
  {
  }

  /** Connector and label together fix the kind up to the one-to-one fallback, and the flag
      for the two kinds told apart. */
  lemma NotationInjective(m1: Macro, p1: bool, m2: Macro, p2: bool)
    requires Connector(m1) == Connector(m2) && Label(m1, p1) == Label(m2, p2)
    ensures ToldApart(m1) || ToldApart(m2) ==> m1 == m2 && p1 == p2
  {
  }

  /** A relationship line can be read back: between the same two tables, two lines are equal
      exactly when the kinds are both drawn one-to-one, or are the same `belongs_to` or
      `has_many` with the same polymorphic flag. */
  lemma RelationDecodes(src: string, dst: string, m1: Macro, p1: bool, m2: Macro, p2: bool)
    ensures MermaidRelation(m1, src, dst, p1) == MermaidRelation(m2, src, dst, p2)
        <==> (ToldApart(m1) || ToldApart(m2) ==> m1 == m2 && p1 == p2)
  {
    var c1, l1 := Connector(m1), Label(m1, p1);
    var c2, l2 := Connector(m2), Label(m2, p2);
    NotationParts(m1);
    NotationParts(m2);
    if MermaidRelation(m1, src, dst, p1) == MermaidRelation(m2, src, dst, p2) {
      var s1 := src + c1 + dst + l1;
      var s2 := src + c2 + dst + l2;
      assert s1 == s2;
      assert c1 == s1[|src|..|src| + 8] == s2[|src|..|src| + 8] == c2;
      assert l1 == s1[|src| + 8 + |dst|..] == s2[|src| + 8 + |dst|..] == l2;
      NotationInjective(m1, p1, m2, p2);
    }
  }

  /** The text of every line kind, spelled out: the four lines `mermaid_relation` tells
      apart, the placeholder of a sentinel record and a column line, each with the
      indentation it carries in the diagram. */
  lemma RenderedTexts(src: string, dst: string, name: string, c: Column)
    ensures RenderRel(Link(src, dst, BelongsTo, false)) == "    " + src + " |{--|| " + dst + " : \"N:1\""
    ensures RenderRel(Link(src, dst, BelongsTo, true)) == "    " + src + " |{--|| " + dst + " : \"N:1 (poly)\""
    ensures RenderRel(Link(src, dst, HasMany, false)) == "    " + src + " ||--|{ " + dst + " : \"1:N\""
    ensures RenderRel(Link(src, dst, HasMany, true)) == "    " + src + " ||--|{ " + dst + " : \"1:N (poly)\""
    ensures RenderRel(Placeholder(src, name)) == "    " + src + " -- \"(poly:" + name + ")\""
    ensures ColumnLine(c) == "        " + MermaidType(c.colType) + " " + c.name
  {
    LinkText(src, dst, BelongsTo, false, " |{--|| ", " : \"N:1\"");
    LinkText(src, dst, BelongsTo, true, " |{--|| ", " : \"N:1 (poly)\"");
    LinkText(src, dst, HasMany, false, " ||--|{ ", " : \"1:N\"");
    LinkText(src, dst, HasMany, true, " ||--|{ ", " : \"1:N (poly)\"");
  }

  lemma LinkText(src: string, dst: string, m: Macro, poly: bool, conn: string, cardinality: string)
    requires Connector(m) == conn && Label(m, poly) == cardinality
    ensures RenderRel(Link(src, dst, m, poly)) == "    " + src + conn + dst + cardinality
  {
    assert RenderRel(Link(src, dst, m, poly)) == "    " + (src + conn + dst + cardinality);
  }

  /** `draw_poly_dummy_edge`: the placeholder line for a record whose target is the sentinel. */
  function PolyDummyEdge(src: string, assocName: string): string {
    src + " -- \"(poly:" + assocName + ")\""
  }

  /** A relationship line before it is turned into text. */
  datatype RelLine =
    | Placeholder(src: string, assocName: string)
    | Link(src: string, dst: string, macro: Macro, poly: bool)

  function RenderRel(l: RelLine): string {
    match l
    case Placeholder(src, assocName) => "    " + PolyDummyEdge(src, assocName)
    case Link(src, dst, macro, poly) => "    " + MermaidRelation(macro, src, dst, poly)
  }

  // ---------------------------------------------------------------------------------------
  // Edge keys

  /** Ruby's `String#<=>` (byte order; UTF-8 byte order is code point order): `a` sorts no
      later than `b`. */
  predicate LexLe(a: string, b: string)
    decreases |a|
  {
    |a| == 0 || (|b| > 0 && (a[0] < b[0] || (a[0] == b[0] && LexLe(a[1..], b[1..]))))
  }

  lemma {:induction false} LexLeTotal(a: string, b: string)
    ensures LexLe(a, b) || LexLe(b, a)
    decreases |a|
  {
    if |a| > 0 && |b| > 0 && a[0] == b[0] {
      LexLeTotal(a[1..], b[1..]);
    }
  }

  lemma {:induction false} LexLeAntisymmetric(a: string, b: string)
    requires LexLe(a, b) && LexLe(b, a)
    ensures a == b
    decreases |a|
  {
    if |a| > 0 {
      LexLeAntisymmetric(a[1..], b[1..]);
      assert a == [a[0]] + a[1..] && b == [b[0]] + b[1..];
    }
  }

  /** The key the source builds for a pair of tables: `[src, dst].sort.join("-")`. */
  function EdgeKeyAsWritten(a: string, b: string): string {
    if LexLe(a, b) then a + "-" + b else b + "-" + a
  }

  /** The written key does not depend on the direction of the edge ... */
  lemma EdgeKeyAsWrittenSymmetric(a: string, b: string)
    ensures EdgeKeyAsWritten(a, b) == EdgeKeyAsWritten(b, a)
  {
    LexLeTotal(a, b);
    if LexLe(a, b) && LexLe(b, a) {
      LexLeAntisymmetric(a, b);
    }
  }

  /** ... but two different pairs of tables can share it once a table name holds '-':
      the edge between "a" and "b-c" would be taken for the one between "a-b" and "c". */
  lemma EdgeKeyAsWrittenCollides()
    ensures EdgeKeyAsWritten("a-b", "c") == EdgeKeyAsWritten("a", "b-c")
    ensures EdgeKey("a-b", "c") != EdgeKey("a", "b-c")
  {
    assert LexLe("a-b", "c");
    assert LexLe("a", "b-c");
    assert "a-b" in EdgeKey("a-b", "c");
  }

  /** The key used to recognise a table pair already drawn: the unordered pair itself. */
  function EdgeKey(a: string, b: string): set<string> {
    {a, b}
  }

  /** Two edges share a key exactly when they join the same two tables, in either direction. */
  lemma EdgeKeyIdentifiesPair(a: string, b: string, c: string, d: string)
    ensures EdgeKey(a, b) == EdgeKey(c, d) <==> (a == c && b == d) || (a == d && b == c)
  {
    if EdgeKey(a, b) == EdgeKey(c, d) {
      assert a in EdgeKey(c, d) && b in EdgeKey(c, d);
      assert c in EdgeKey(a, b) && d in EdgeKey(a, b);
    }
  }

  /** In a string joined at one '-' after a hyphen-free head, the first '-' ends the head. */
  lemma HyphenAfterHead(x: string, y: string)
    requires '-' !in x
    ensures (x + "-" + y)[|x|] == '-'
    ensures forall i :: 0 <= i < |x| ==> (x + "-" + y)[i] != '-'
  {
    forall i | 0 <= i < |x|
      ensures (x + "-" + y)[i] != '-'
    {
      assert (x + "-" + y)[i] == x[i];
    }
  }

  /** A string joined at one '-' from two hyphen-free halves splits back into those halves. */
  lemma SplitAtHyphen(x: string, y: string, p: string, q: string)
    requires '-' !in x && '-' !in y && '-' !in p && '-' !in q
    requires x + "-" + y == p + "-" + q
    ensures x == p && y == q
  {
    var s := x + "-" + y;
    HyphenAfterHead(x, y);
    HyphenAfterHead(p, q);
    assert |x| == |p|;
    assert x == s[..|x|] == p;
    assert y == s[|x| + 1..] == q;
  }

  /** Without '-' in any table name the written key identifies the pair as well as the
      unordered pair does. */
  lemma WrittenKeyExactWithoutHyphens(a: string, b: string, c: string, d: string)
    requires '-' !in a && '-' !in b && '-' !in c && '-' !in d
    ensures EdgeKeyAsWritten(a, b) == EdgeKeyAsWritten(c, d) <==> EdgeKey(a, b) == EdgeKey(c, d)
  {
    EdgeKeyIdentifiesPair(a, b, c, d);
    if EdgeKey(a, b) == EdgeKey(c, d) {
      if a != c {
        EdgeKeyAsWrittenSymmetric(c, d);
      }
    }
    if EdgeKeyAsWritten(a, b) == EdgeKeyAsWritten(c, d) {
      var x, y := if LexLe(a, b) then a else b, if LexLe(a, b) then b else a;
      var p, q := if LexLe(c, d) then c else d, if LexLe(c, d) then d else c;
      SplitAtHyphen(x, y, p, q);
    }
  }

  // ---------------------------------------------------------------------------------------
  // Relationship section

  /** The first model info whose class is named `name`, if there is one. */
  function FindInfo(infos: seq<ModelInfo>, name: string): (r: Option<ModelInfo>)
    ensures r.None? <==> name !in Models(infos)
    ensures r.Some? ==> r.value.model == name && r.value in infos
    ensures r.Some? ==> r.value == infos[FirstIndex(Models(infos), name)]
  {
    if name in Models(infos) then Some(infos[FirstIndex(Models(infos), name)]) else None
  }

  /** One association record of one model info, visited in the renderer's double loop. */
  datatype Use = Use(info: ModelInfo, assoc: Assoc)

  function UsesOf(info: ModelInfo): seq<Use> {
    seq(|info.associations|, j requires 0 <= j < |info.associations| => Use(info, info.associations[j]))
  }

  /** Every record of every model info: model infos in order, each one's records in order. */
  function Uses(infos: seq<ModelInfo>): seq<Use> {
    Concat(seq(|infos|, i requires 0 <= i < |infos| => UsesOf(infos[i])))
  }

  /** The relationship line a record would draw when its pair is new (none for the sentinel
      and for targets absent from the records). */
  function LinkFor(infos: seq<ModelInfo>, u: Use): Option<RelLine> {
    if u.assoc.className == Sentinel then None
    else match FindInfo(infos, u.assoc.className)
      case None => None
      case Some(dst) => Some(Link(u.info.table, dst.table, u.assoc.macro, u.assoc.polymorphic))
  }

  /** The key a link is recognised by, under a key function: the source's joined string
      (`EdgeKeyAsWritten`) or the unordered table pair (`EdgeKey`). */
  function KeyOf<K>(key: (string, string) -> K, l: RelLine): K
    requires l.Link?
  {
    key(l.src, l.dst)
  }

  /** The relationship loop: draws the placeholder of every sentinel record, and the line of
      every other record whose target has a model info and whose key is not in `seen` yet.
      The diagram runs it with the source's key, `EdgeKeyAsWritten`. */
  function RelLines<K(==)>(infos: seq<ModelInfo>, uses: seq<Use>, key: (string, string) -> K, seen: set<K>)
    : (r: seq<RelLine>)
    ensures |r| <= |uses|
    ensures forall i :: 0 <= i < |r| && r[i].Link? ==> KeyOf(key, r[i]) !in seen
    decreases |uses|
  {
    if |uses| == 0 then []
    else
      var u := uses[0];
      if u.assoc.className == Sentinel then
        var tail := RelLines(infos, uses[1..], key, seen);
        assert forall i :: 1 <= i < |[Placeholder(u.info.table, u.assoc.name)] + tail| ==>
          ([Placeholder(u.info.table, u.assoc.name)] + tail)[i] == tail[i - 1];
        [Placeholder(u.info.table, u.assoc.name)] + tail
      else
        match LinkFor(infos, u)
        case None => RelLines(infos, uses[1..], key, seen)
        case Some(l) =>
          if KeyOf(key, l) in seen then RelLines(infos, uses[1..], key, seen)
          else
            var tail := RelLines(infos, uses[1..], key, seen + {KeyOf(key, l)});
            assert forall i :: 1 <= i < |[l] + tail| ==> ([l] + tail)[i] == tail[i - 1];
            [l] + tail
  }

  /** The keys of the links among some relationship lines. */
  function LinkKeys<K(==)>(key: (string, string) -> K, ls: seq<RelLine>): set<K> {
    set i | 0 <= i < |ls| && ls[i].Link? :: KeyOf(key, ls[i])
  }

  /** The keys some records would draw. */
  function UseKeys<K(==)>(infos: seq<ModelInfo>, key: (string, string) -> K, uses: seq<Use>): set<K> {
    set i | 0 <= i < |uses| && LinkFor(infos, uses[i]).Some? :: KeyOf(key, LinkFor(infos, uses[i]).value)
  }

  /** The placeholder lines some records draw, in order. */
  function Placeholders(infos: seq<ModelInfo>, uses: seq<Use>): seq<RelLine>
    decreases |uses|
  {
    if |uses| == 0 then []
    else
      (if uses[0].assoc.className == Sentinel then [Placeholder(uses[0].info.table, uses[0].assoc.name)] else [])
        + Placeholders(infos, uses[1..])
  }

  /** The placeholder lines among some relationship lines, in order. */
  function PlaceholdersIn(ls: seq<RelLine>): seq<RelLine>
    decreases |ls|
  {
    if |ls| == 0 then []
    else (if ls[0].Placeholder? then [ls[0]] else []) + PlaceholdersIn(ls[1..])
  }

  lemma LinkKeysCons<K>(key: (string, string) -> K, l: RelLine, ls: seq<RelLine>)
    ensures LinkKeys(key, [l] + ls) == (if l.Link? then {KeyOf(key, l)} else {}) + LinkKeys(key, ls)
  {
    var all := [l] + ls;
    if l.Link? {
      assert all[0] == l;
      assert KeyOf(key, all[0]) in LinkKeys(key, all);
    }
    forall k | k in LinkKeys(key, all)
      ensures k in (if l.Link? then {KeyOf(key, l)} else {}) + LinkKeys(key, ls)
    {
      var i :| 0 <= i < |all| && all[i].Link? && KeyOf(key, all[i]) == k;
      if i > 0 {
        assert ls[i - 1] == all[i];
      }
    }
    forall k | k in LinkKeys(key, ls)
      ensures k in LinkKeys(key, all)
    {
      var i :| 0 <= i < |ls| && ls[i].Link? && KeyOf(key, ls[i]) == k;
      assert all[i + 1] == ls[i];
    }
  }

  lemma UseKeysCons<K>(infos: seq<ModelInfo>, key: (string, string) -> K, uses: seq<Use>)
    requires |uses| >= 1
    ensures UseKeys(infos, key, uses)
         == (if LinkFor(infos, uses[0]).Some? then {KeyOf(key, LinkFor(infos, uses[0]).value)} else {})
            + UseKeys(infos, key, uses[1..])
  {
    var rest := uses[1..];
    forall k | k in UseKeys(infos, key, uses)
      ensures k in (if LinkFor(infos, uses[0]).Some? then {KeyOf(key, LinkFor(infos, uses[0]).value)} else {})
            + UseKeys(infos, key, rest)
    {
      var i :| 0 <= i < |uses| && LinkFor(infos, uses[i]).Some? && KeyOf(key, LinkFor(infos, uses[i]).value) == k;
      if i > 0 {
        assert rest[i - 1] == uses[i];
      }
    }
    forall k | k in UseKeys(infos, key, rest)
      ensures k in UseKeys(infos, key, uses)
    {
      var i :| 0 <= i < |rest| && LinkFor(infos, rest[i]).Some? && KeyOf(key, LinkFor(infos, rest[i]).value) == k;
      assert uses[i + 1] == rest[i];
    }
  }

  /** The relationship loop draws each key at most once (a key already in `seen` not at all),
      and every key some record would draw is either in `seen` or drawn. With the source's
      joined key this is what `visited_edges` achieves: one line per joined string. */
  lemma {:induction false} RelLinesDrawEachKeyOnce<K>(infos: seq<ModelInfo>, uses: seq<Use>,
                                                         key: (string, string) -> K, seen: set<K>)
    ensures var ls := RelLines(infos, uses, key, seen);
      forall i, j :: 0 <= i < j < |ls| && ls[i].Link? && ls[j].Link? ==> KeyOf(key, ls[i]) != KeyOf(key, ls[j])
    ensures LinkKeys(key, RelLines(infos, uses, key, seen)) !! seen
    ensures seen + LinkKeys(key, RelLines(infos, uses, key, seen)) == seen + UseKeys(infos, key, uses)
    decreases |uses|
  {
    RelLinesDrawnKeys(infos, uses, key, seen);
    if |uses| > 0 {
      var u := uses[0];
      var rest := uses[1..];
      if u.assoc.className == Sentinel {
        RelLinesDrawEachKeyOnce(infos, rest, key, seen);
        var tail := RelLines(infos, rest, key, seen);
        ShiftedLinksDistinct(key, Placeholder(u.info.table, u.assoc.name), tail);
      } else {
        match LinkFor(infos, u)
        case None =>
          RelLinesDrawEachKeyOnce(infos, rest, key, seen);
        case Some(l) =>
          if KeyOf(key, l) in seen {
            RelLinesDrawEachKeyOnce(infos, rest, key, seen);
          } else {
            var seen' := seen + {KeyOf(key, l)};
            RelLinesDrawEachKeyOnce(infos, rest, key, seen');
            var tail := RelLines(infos, rest, key, seen');
            assert KeyOf(key, l) !in LinkKeys(key, tail);
            ShiftedLinksDistinct(key, l, tail);
          }
      }
    }
  }

  /** Putting a line in front of lines whose links have distinct keys keeps the keys
      distinct, provided the new line's key (if it is a link) is not among them. */
  lemma ShiftedLinksDistinct<K>(key: (string, string) -> K, l: RelLine, tail: seq<RelLine>)
    requires forall i, j :: 0 <= i < j < |tail| && tail[i].Link? && tail[j].Link? ==> KeyOf(key, tail[i]) != KeyOf(key, tail[j])
    requires l.Link? ==> KeyOf(key, l) !in LinkKeys(key, tail)
    ensures var ls := [l] + tail;
      forall i, j :: 0 <= i < j < |ls| && ls[i].Link? && ls[j].Link? ==> KeyOf(key, ls[i]) != KeyOf(key, ls[j])
  {
    var ls := [l] + tail;
    assert forall i :: 1 <= i < |ls| ==> ls[i] == tail[i - 1];
    forall j | 1 <= j < |ls| && ls[0].Link? && ls[j].Link?
      ensures KeyOf(key, ls[0]) != KeyOf(key, ls[j])
    {
      assert KeyOf(key, tail[j - 1]) in LinkKeys(key, tail);
    }
  }

  /** The keys the loop draws are new ones, and together with `seen` they are every key
      some record would draw. */
  lemma {:induction false} RelLinesDrawnKeys<K>(infos: seq<ModelInfo>, uses: seq<Use>,
                                                   key: (string, string) -> K, seen: set<K>)
    ensures LinkKeys(key, RelLines(infos, uses, key, seen)) !! seen
    ensures seen + LinkKeys(key, RelLines(infos, uses, key, seen)) == seen + UseKeys(infos, key, uses)
    decreases |uses|
  {
    if |uses| > 0 {
      var u := uses[0];
      var rest := uses[1..];
      UseKeysCons(infos, key, uses);
      if u.assoc.className == Sentinel {
        RelLinesDrawnKeys(infos, rest, key, seen);
        LinkKeysCons(key, Placeholder(u.info.table, u.assoc.name), RelLines(infos, rest, key, seen));
      } else {
        match LinkFor(infos, u)
        case None =>
          RelLinesDrawnKeys(infos, rest, key, seen);
        case Some(l) =>
          if KeyOf(key, l) in seen {
            RelLinesDrawnKeys(infos, rest, key, seen);
          } else {
            var seen' := seen + {KeyOf(key, l)};
            RelLinesDrawnKeys(infos, rest, key, seen');
            var tail := RelLines(infos, rest, key, seen');
            LinkKeysCons(key, l, tail);
            assert RelLines(infos, uses, key, seen) == [l] + tail;
          }
      }
    }
  }

  /** The record that first reaches a key decides how it is drawn: the link is the line of a
      record whose key neither `seen` nor any earlier record holds. */
  ghost predicate FirstToReach<K>(infos: seq<ModelInfo>, uses: seq<Use>, key: (string, string) -> K,
                                      seen: set<K>, i: int, l: RelLine)
    requires 0 <= i < |uses| && l.Link?
  {
    && LinkFor(infos, uses[i]) == Some(l)
    && KeyOf(key, l) !in seen
    && forall k :: 0 <= k < i && LinkFor(infos, uses[k]).Some? ==> KeyOf(key, LinkFor(infos, uses[k]).value) != KeyOf(key, l)
  }

  lemma FirstToReachShift<K>(infos: seq<ModelInfo>, uses: seq<Use>, key: (string, string) -> K,
                                 seen: set<K>, seen': set<K>, i: int, l: RelLine)
    requires |uses| >= 1 && 0 <= i < |uses| - 1 && l.Link?
    requires FirstToReach(infos, uses[1..], key, seen', i, l)
    requires seen <= seen'
    requires LinkFor(infos, uses[0]).Some? ==> KeyOf(key, LinkFor(infos, uses[0]).value) in seen'
    ensures FirstToReach(infos, uses, key, seen, i + 1, l)
  {
    assert uses[i + 1] == uses[1..][i];
    forall k | 1 <= k < i + 1
      ensures uses[k] == uses[1..][k - 1]
    {
    }
  }

  /** Each drawn link is the line of the first record that reaches its key: that record's
      kind and polymorphic flag decide the notation, and later records with the same key are
      skipped. */
  lemma {:induction false} RelLinesFirstWins<K>(infos: seq<ModelInfo>, uses: seq<Use>,
                                                   key: (string, string) -> K, seen: set<K>)
    ensures forall j :: 0 <= j < |RelLines(infos, uses, key, seen)| && RelLines(infos, uses, key, seen)[j].Link? ==>
      exists i :: 0 <= i < |uses| && FirstToReach(infos, uses, key, seen, i, RelLines(infos, uses, key, seen)[j])
    decreases |uses|
  {
    if |uses| > 0 {
      var u := uses[0];
      var rest := uses[1..];
      var ls := RelLines(infos, uses, key, seen);
      var drawn := u.assoc.className != Sentinel && LinkFor(infos, u).Some?
                   && KeyOf(key, LinkFor(infos, u).value) !in seen;
      var seen' := if drawn then seen + {KeyOf(key, LinkFor(infos, u).value)} else seen;
      RelLinesFirstWins(infos, rest, key, seen');
      var tail := RelLines(infos, rest, key, seen');
      var off := |ls| - |tail|;
      assert ls[off..] == tail;
      assert off == 0 || off == 1;
      assert drawn ==> ls[0] == LinkFor(infos, u).value;
      forall j | 0 <= j < |ls| && ls[j].Link?
        ensures exists i :: 0 <= i < |uses| && FirstToReach(infos, uses, key, seen, i, ls[j])
      {
        if j < off {
          assert drawn;
          assert FirstToReach(infos, uses, key, seen, 0, ls[j]);
        } else {
          var jj := j - off;
          assert tail[jj] == ls[j];
          var i :| 0 <= i < |rest| && FirstToReach(infos, rest, key, seen', i, tail[jj]);
          FirstToReachShift(infos, uses, key, seen, seen', i, ls[j]);
        }
      }
    }
  }

  /** Placeholder lines neither consult the model infos nor the drawn keys: every sentinel
      record draws one, in record order. */
  lemma {:induction false} RelLinesPlaceholders<K>(infos: seq<ModelInfo>, uses: seq<Use>,
                                                      key: (string, string) -> K, seen: set<K>)
    ensures PlaceholdersIn(RelLines(infos, uses, key, seen)) == Placeholders(infos, uses)
    decreases |uses|
  {
    if |uses| > 0 {
      var u := uses[0];
      var rest := uses[1..];
      if u.assoc.className == Sentinel {
        RelLinesPlaceholders(infos, rest, key, seen);
        var tail := RelLines(infos, rest, key, seen);
        assert ([Placeholder(u.info.table, u.assoc.name)] + tail)[1..] == tail;
      } else {
        match LinkFor(infos, u)
        case None =>
          RelLinesPlaceholders(infos, rest, key, seen);
        case Some(l) =>
          if KeyOf(key, l) in seen {
            RelLinesPlaceholders(infos, rest, key, seen);
          } else {
            RelLinesPlaceholders(infos, rest, key, seen + {KeyOf(key, l)});
            var tail := RelLines(infos, rest, key, seen + {KeyOf(key, l)});
            assert ([l] + tail)[1..] == tail;
          }
      }
    }
  }

  /** Two key functions that tell the same records' links apart, and agree on which of them
      are already seen, make the loop draw the same lines. */
  lemma {:induction false} RelLinesKeyAgnostic<K, J>(infos: seq<ModelInfo>, uses: seq<Use>,
      k1: (string, string) -> K, s1: set<K>, k2: (string, string) -> J, s2: set<J>)
    requires forall i, j :: 0 <= i < |uses| && 0 <= j < |uses| && LinkFor(infos, uses[i]).Some? && LinkFor(infos, uses[j]).Some? ==>
      (KeyOf(k1, LinkFor(infos, uses[i]).value) == KeyOf(k1, LinkFor(infos, uses[j]).value)
       <==> KeyOf(k2, LinkFor(infos, uses[i]).value) == KeyOf(k2, LinkFor(infos, uses[j]).value))
    requires forall i :: 0 <= i < |uses| && LinkFor(infos, uses[i]).Some? ==>
      (KeyOf(k1, LinkFor(infos, uses[i]).value) in s1 <==> KeyOf(k2, LinkFor(infos, uses[i]).value) in s2)
    ensures RelLines(infos, uses, k1, s1) == RelLines(infos, uses, k2, s2)
    decreases |uses|
  {
    if |uses| > 0 {
      var u := uses[0];
      var rest := uses[1..];
      assert forall i :: 0 <= i < |rest| ==> rest[i] == uses[i + 1];
      if u.assoc.className == Sentinel || LinkFor(infos, u).None? {
        RelLinesKeyAgnostic(infos, rest, k1, s1, k2, s2);
      } else {
        var l := LinkFor(infos, u).value;
        if KeyOf(k1, l) in s1 {
          RelLinesKeyAgnostic(infos, rest, k1, s1, k2, s2);
        } else {
          var t1 := s1 + {KeyOf(k1, l)};
          var t2 := s2 + {KeyOf(k2, l)};
          forall i | 0 <= i < |rest| && LinkFor(infos, rest[i]).Some?
            ensures KeyOf(k1, LinkFor(infos, rest[i]).value) in t1 <==> KeyOf(k2, LinkFor(infos, rest[i]).value) in t2
          {
            assert rest[i] == uses[i + 1];
          }
          RelLinesKeyAgnostic(infos, rest, k1, t1, k2, t2);
        }
      }
    }
  }

  /** The relationship loop of `build_mermaid_er`: records in order, `visited_edges` holding
      the joined keys drawn so far. */
  function DrawnLines(infos: seq<ModelInfo>): (r: seq<RelLine>)
    ensures |r| <= |Uses(infos)|
  {
    RelLines(infos, Uses(infos), EdgeKeyAsWritten, {})
  }

  /** What the diagram's relationship loop draws: every sentinel record's placeholder, in
      record order; at most one link per joined key; a link for the joined key of every
      record whose target has a model info; and each link is the line of the first record
      that reaches its joined key. */
  lemma DrawnLinesOnePerWrittenKey(infos: seq<ModelInfo>)
    ensures PlaceholdersIn(DrawnLines(infos)) == Placeholders(infos, Uses(infos))
    ensures var ls := DrawnLines(infos);
      forall i, j :: 0 <= i < j < |ls| && ls[i].Link? && ls[j].Link? ==>
        EdgeKeyAsWritten(ls[i].src, ls[i].dst) != EdgeKeyAsWritten(ls[j].src, ls[j].dst)
    ensures var ls := DrawnLines(infos); var uses := Uses(infos);
      forall k :: 0 <= k < |uses| && LinkFor(infos, uses[k]).Some? ==>
        exists j :: 0 <= j < |ls| && ls[j].Link?
          && EdgeKeyAsWritten(ls[j].src, ls[j].dst) == KeyOf(EdgeKeyAsWritten, LinkFor(infos, uses[k]).value)
    ensures var ls := DrawnLines(infos);
      forall j :: 0 <= j < |ls| && ls[j].Link? ==>
        exists i :: 0 <= i < |Uses(infos)| && FirstToReach(infos, Uses(infos), EdgeKeyAsWritten, {}, i, ls[j])
  {
    var uses := Uses(infos);
    var ls := DrawnLines(infos);
    RelLinesPlaceholders(infos, uses, EdgeKeyAsWritten, {});
    RelLinesDrawEachKeyOnce(infos, uses, EdgeKeyAsWritten, {});
    RelLinesFirstWins(infos, uses, EdgeKeyAsWritten, {});
    assert LinkKeys(EdgeKeyAsWritten, ls) == UseKeys(infos, EdgeKeyAsWritten, uses);
    forall k | 0 <= k < |uses| && LinkFor(infos, uses[k]).Some?
      ensures exists j :: 0 <= j < |ls| && ls[j].Link?
                          && EdgeKeyAsWritten(ls[j].src, ls[j].dst) == KeyOf(EdgeKeyAsWritten, LinkFor(infos, uses[k]).value)
    {
      assert KeyOf(EdgeKeyAsWritten, LinkFor(infos, uses[k]).value) in UseKeys(infos, EdgeKeyAsWritten, uses);
    }
  }

  /** Two links join the same two tables, in either direction. */
  predicate SamePair(l: RelLine, m: RelLine)
    requires l.Link? && m.Link?
  {
    (l.src == m.src && l.dst == m.dst) || (l.src == m.dst && l.dst == m.src)
  }

  /** The diagram's loop draws at most one link per unordered pair of tables, since both
      directions of a pair share one joined key. */
  lemma DrawnLinesOnePerPair(infos: seq<ModelInfo>)
    ensures var ls := DrawnLines(infos);
      forall i, j :: 0 <= i < j < |ls| && ls[i].Link? && ls[j].Link? ==> !SamePair(ls[i], ls[j])
  {
    var ls := DrawnLines(infos);
    DrawnLinesOnePerWrittenKey(infos);
    forall i, j | 0 <= i < j < |ls| && ls[i].Link? && ls[j].Link?
      ensures !SamePair(ls[i], ls[j])
    {
      EdgeKeyAsWrittenSymmetric(ls[j].src, ls[j].dst);
    }
  }

  /** The relationship loop with the corrected key: the unordered table pair. */
  function PairLines(infos: seq<ModelInfo>): seq<RelLine> {
    RelLines(infos, Uses(infos), EdgeKey, {})
  }

  /** With the corrected key the loop draws every pair of tables some record links, exactly
      once, in either direction. */
  lemma PairLinesDrawEachPairOnce(infos: seq<ModelInfo>)
    ensures var ls := PairLines(infos);
      forall i, j :: 0 <= i < j < |ls| && ls[i].Link? && ls[j].Link? ==> !SamePair(ls[i], ls[j])
    ensures var ls := PairLines(infos); var uses := Uses(infos);
      forall k :: 0 <= k < |uses| && LinkFor(infos, uses[k]).Some? ==>
        exists j :: 0 <= j < |ls| && ls[j].Link? && SamePair(ls[j], LinkFor(infos, uses[k]).value)
  {
    var uses := Uses(infos);
    var ls := PairLines(infos);
    RelLinesDrawEachKeyOnce(infos, uses, EdgeKey, {});
    forall i, j | 0 <= i < j < |ls| && ls[i].Link? && ls[j].Link?
      ensures !SamePair(ls[i], ls[j])
    {
      EdgeKeyIdentifiesPair(ls[i].src, ls[i].dst, ls[j].src, ls[j].dst);
    }
    assert LinkKeys(EdgeKey, ls) == UseKeys(infos, EdgeKey, uses);
    forall k | 0 <= k < |uses| && LinkFor(infos, uses[k]).Some?
      ensures exists j :: 0 <= j < |ls| && ls[j].Link? && SamePair(ls[j], LinkFor(infos, uses[k]).value)
    {
      var l := LinkFor(infos, uses[k]).value;
      assert KeyOf(EdgeKey, l) in UseKeys(infos, EdgeKey, uses);
      var j :| 0 <= j < |ls| && ls[j].Link? && KeyOf(EdgeKey, ls[j]) == KeyOf(EdgeKey, l);
      EdgeKeyIdentifiesPair(ls[j].src, ls[j].dst, l.src, l.dst);
    }
  }

  /** No table name holds '-'. */
  ghost predicate HyphenFreeTables(infos: seq<ModelInfo>) {
    forall i :: 0 <= i < |infos| ==> '-' !in infos[i].table
  }

  /** A link some record draws joins two tables of the model infos. */
  lemma LinkTablesFromInfos(infos: seq<ModelInfo>, u: Use)
    requires u in Uses(infos) && LinkFor(infos, u).Some?
    ensures exists i :: 0 <= i < |infos| && infos[i].table == LinkFor(infos, u).value.src
    ensures exists j :: 0 <= j < |infos| && infos[j].table == LinkFor(infos, u).value.dst
  {
    UsesComeFromInfos(infos, u);
    var i :| 0 <= i < |infos| && infos[i] == u.info;
    var dst := FindInfo(infos, u.assoc.className).value;
    var j :| 0 <= j < |infos| && infos[j] == dst;
  }

  /** As long as no table name holds '-', the source's joined key loses nothing: the diagram's
      loop draws exactly the lines of the corrected loop. */
  lemma LoopsAgreeWithoutHyphens(infos: seq<ModelInfo>)
    requires HyphenFreeTables(infos)
    ensures RelLines(infos, Uses(infos), EdgeKeyAsWritten, {}) == PairLines(infos)
  {
    var uses := Uses(infos);
    forall i | 0 <= i < |uses| && LinkFor(infos, uses[i]).Some?
      ensures '-' !in LinkFor(infos, uses[i]).value.src && '-' !in LinkFor(infos, uses[i]).value.dst
    {
      LinkTablesFromInfos(infos, uses[i]);
    }
    forall i, j | 0 <= i < |uses| && 0 <= j < |uses| && LinkFor(infos, uses[i]).Some? && LinkFor(infos, uses[j]).Some?
      ensures KeyOf(EdgeKeyAsWritten, LinkFor(infos, uses[i]).value) == KeyOf(EdgeKeyAsWritten, LinkFor(infos, uses[j]).value)
          <==> KeyOf(EdgeKey, LinkFor(infos, uses[i]).value) == KeyOf(EdgeKey, LinkFor(infos, uses[j]).value)
    {
      var a := LinkFor(infos, uses[i]).value;
      var b := LinkFor(infos, uses[j]).value;
      WrittenKeyExactWithoutHyphens(a.src, a.dst, b.src, b.dst);
    }
    RelLinesKeyAgnostic(infos, uses, EdgeKeyAsWritten, {}, EdgeKey, {});
  }

  /** Four tables, `a-b` linked to `c` and `a` linked to `b-c`: the two links share the
      source's joined key. */
  const Sample: seq<ModelInfo> := [
    ModelInfo("Ab", "a-b", [Assoc("cs", HasMany, false, "C")], []),
    ModelInfo("C", "c", [], []),
    ModelInfo("A", "a", [Assoc("bcs", HasMany, false, "Bc")], []),
    ModelInfo("Bc", "b-c", [], [])]

  /** The records of `Sample`: one per linking table. */
  lemma SampleUses()
    ensures Uses(Sample) == [Use(Sample[0], Sample[0].associations[0]), Use(Sample[2], Sample[2].associations[0])]
  {
    var u0 := Use(Sample[0], Sample[0].associations[0]);
    var u1 := Use(Sample[2], Sample[2].associations[0]);
    assert UsesOf(Sample[0]) == [u0];
    assert UsesOf(Sample[1]) == [];
    assert UsesOf(Sample[2]) == [u1];
    assert UsesOf(Sample[3]) == [];
    var groups := seq(|Sample|, i requires 0 <= i < |Sample| => UsesOf(Sample[i]));
    assert groups == [[u0], [], [u1], []];
    assert groups[4..] == [];
    assert groups[3..] == [[]];
    assert Concat(groups[3..]) == [] + Concat(groups[4..]);
    assert groups[2..] == [[u1], []];
    assert Concat(groups[2..]) == [u1] + Concat(groups[3..]);
    assert groups[1..] == [[], [u1], []];
    assert Concat(groups[1..]) == [] + Concat(groups[2..]);
    assert Concat(groups) == [u0] + Concat(groups[1..]);
  }

  /** The links of `Sample`: `a-b` to `c` and `a` to `b-c`. */
  lemma SampleLinks()
    ensures LinkFor(Sample, Use(Sample[0], Sample[0].associations[0])) == Some(Link("a-b", "c", HasMany, false))
    ensures LinkFor(Sample, Use(Sample[2], Sample[2].associations[0])) == Some(Link("a", "b-c", HasMany, false))
  {
    assert Models(Sample) == ["Ab", "C", "A", "Bc"];
    assert FindInfo(Sample, "C") == Some(Sample[1]);
    assert FindInfo(Sample, "Bc") == Some(Sample[3]);
  }

  /** The source's loop on `Sample`: the second link is taken for the first. */
  lemma WrittenLoopOnSample()
    ensures DrawnLines(Sample) == [Link("a-b", "c", HasMany, false)]
  {
    var l0 := Link("a-b", "c", HasMany, false);
    var u1 := Use(Sample[2], Sample[2].associations[0]);
    SampleUses();
    SampleLinks();
    EdgeKeyAsWrittenCollides();
    assert [u1][1..] == [];
    assert RelLines(Sample, [u1], EdgeKeyAsWritten, {KeyOf(EdgeKeyAsWritten, l0)}) == [];
  }

  /** The corrected loop on `Sample`: both links are drawn. */
  lemma PairLoopOnSample()
    ensures PairLines(Sample) == [Link("a-b", "c", HasMany, false), Link("a", "b-c", HasMany, false)]
  {
    var l0 := Link("a-b", "c", HasMany, false);
    var l1 := Link("a", "b-c", HasMany, false);
    var u1 := Use(Sample[2], Sample[2].associations[0]);
    SampleUses();
    SampleLinks();
    EdgeKeyAsWrittenCollides();
    assert [u1][1..] == [];
    assert RelLines(Sample, [u1], EdgeKey, {KeyOf(EdgeKey, l0)}) == [l1];
  }




  // ---------------------------------------------------------------------------------------
  // The whole diagram

  /** `build_mermaid_er`: fence and keyword, the table blocks, the relationship lines, the
      closing fence, joined by line breaks. The text is the diagram's physical lines joined
      (a joined table block contributes its own lines), and unless a name holds a line break
      it reads back line by line as exactly those lines. */
  function BuildMermaidEr(infos: seq<ModelInfo>): (r: string)
    ensures r == JoinLines(DocumentLines(infos))
    ensures PlainNames(infos) ==> SplitLines(r) == DocumentLines(infos)
  {
    var tables := seq(|infos|, i requires 0 <= i < |infos| => TableDefinition(infos[i]));
    var rels := DrawnLines(infos);
    var relTexts := seq(|rels|, i requires 0 <= i < |rels| => RenderRel(rels[i]));
    JoinedBlocksAreDocument(infos);
    DocumentReadBack(infos);
    JoinLines([OpenFence, Keyword] + tables + relTexts + [CloseFence])
  }

  /** The physical lines of the diagram: every table block's lines, in order, then every
      relationship line, between the fences. */
  function DocumentLines(infos: seq<ModelInfo>): (r: seq<string>)
    ensures |r| >= 3 && r[0] == OpenFence && r[1] == Keyword && r[|r| - 1] == CloseFence
  {
    var blocks := Concat(seq(|infos|, i requires 0 <= i < |infos| => TableLines(infos[i])));
    var rels := DrawnLines(infos);
    var relTexts := seq(|rels|, i requires 0 <= i < |rels| => RenderRel(rels[i]));
    [OpenFence, Keyword] + blocks + relTexts + [CloseFence]
  }

  /** The lines of every table block, block after block. */
  function Blocks(infos: seq<ModelInfo>): seq<seq<string>> {
    seq(|infos|, i requires 0 <= i < |infos| => TableLines(infos[i]))
  }

  /** The relationship section, as text. */
  function RelTexts(infos: seq<ModelInfo>): seq<string> {
    var rels := DrawnLines(infos);
    seq(|rels|, i requires 0 <= i < |rels| => RenderRel(rels[i]))
  }

  /** The line at which the block of `infos[i]` starts: after the fence, the keyword and the
      blocks before it (each one line per column plus its two brace lines). */
  function BlockStart(infos: seq<ModelInfo>, i: int): nat
    requires 0 <= i <= |infos|
  {
    if i == 0 then 2 else BlockStart(infos, i - 1) + |infos[i - 1].columns| + 2
  }

  lemma JoinLinesInline(h: seq<string>, b: seq<string>, y: seq<string>)
    requires |h| >= 1 && |b| >= 1 && |y| >= 1
    ensures JoinLines(h + [JoinLines(b)] + y) == JoinLines(h + b + y)
  {
    var jb := JoinLines(b);
    var jh := JoinLines(h);
    var jy := JoinLines(y);
    AppendAssoc(h, [jb], y);
    AppendAssoc(h, b, y);
    JoinLinesAppend(h, [jb] + y);
    JoinLinesAppend([jb], y);
    JoinLinesAppend(h, b + y);
    JoinLinesAppend(b, y);
    assert JoinLines(h + [jb] + y) == jh + [NL] + (jb + [NL] + jy);
    assert JoinLines(h + b + y) == jh + [NL] + (jb + [NL] + jy);
  }

  lemma {:induction false} JoinNestedBlocks(h: seq<string>, bs: seq<seq<string>>, t: seq<string>)
    requires |h| >= 1 && |t| >= 1
    requires forall i :: 0 <= i < |bs| ==> |bs[i]| >= 1
    ensures JoinLines(h + seq(|bs|, i requires 0 <= i < |bs| => JoinLines(bs[i])) + t)
         == JoinLines(h + Concat(bs) + t)
    decreases |bs|
  {
    var joined := seq(|bs|, i requires 0 <= i < |bs| => JoinLines(bs[i]));
    if |bs| == 0 {
      assert joined == [] && Concat(bs) == [];
    } else {
      var rest := bs[1..];
      var joinedRest := seq(|rest|, i requires 0 <= i < |rest| => JoinLines(rest[i]));
      assert joined == [JoinLines(bs[0])] + joinedRest;
      JoinNestedBlocks(h + bs[0], rest, t);
      JoinLinesInline(h, bs[0], joinedRest + t);
      assert h + joined + t == h + [JoinLines(bs[0])] + (joinedRest + t);
      assert h + bs[0] + (joinedRest + t) == (h + bs[0]) + joinedRest + t;
      assert Concat(bs) == bs[0] + Concat(rest);
      assert h + Concat(bs) + t == (h + bs[0]) + Concat(rest) + t;
    }
  }

  /** Joining each table block into one string first and then joining everything gives the
      physical lines joined. */
  lemma JoinedBlocksAreDocument(infos: seq<ModelInfo>)
    ensures var tables := seq(|infos|, i requires 0 <= i < |infos| => TableDefinition(infos[i]));
      JoinLines([OpenFence, Keyword] + tables + RelTexts(infos) + [CloseFence]) == JoinLines(DocumentLines(infos))
  {
    var bs := Blocks(infos);
    var tables := seq(|infos|, i requires 0 <= i < |infos| => TableDefinition(infos[i]));
    assert tables == seq(|bs|, i requires 0 <= i < |bs| => JoinLines(bs[i]));
    JoinNestedBlocks([OpenFence, Keyword], bs, RelTexts(infos) + [CloseFence]);
    assert [OpenFence, Keyword] + tables + RelTexts(infos) + [CloseFence]
        == [OpenFence, Keyword] + tables + (RelTexts(infos) + [CloseFence]);
    assert DocumentLines(infos) == [OpenFence, Keyword] + Concat(bs) + (RelTexts(infos) + [CloseFence]);
  }

  /** No table, column or association name holds a line break. */
  ghost predicate PlainNames(infos: seq<ModelInfo>) {
    forall i :: 0 <= i < |infos| ==>
      LineFree(infos[i].table)
      && (forall c :: c in infos[i].columns ==> LineFree(c.name))
      && (forall a :: a in infos[i].associations ==> LineFree(a.name))
  }

  lemma UsesComeFromInfos(infos: seq<ModelInfo>, u: Use)
    requires u in Uses(infos)
    ensures u.info in infos && u.assoc in u.info.associations
  {
    var groups := seq(|infos|, i requires 0 <= i < |infos| => UsesOf(infos[i]));
    var i :| 0 <= i < |groups| && u in groups[i];
    assert groups[i] == UsesOf(infos[i]);
  }

  lemma {:induction false} RelLinesComeFromUses<K>(infos: seq<ModelInfo>, uses: seq<Use>,
                                                      key: (string, string) -> K, seen: set<K>, l: RelLine)
    requires l in RelLines(infos, uses, key, seen)
    ensures exists u :: u in uses && (l == Placeholder(u.info.table, u.assoc.name) || LinkFor(infos, u) == Some(l))
    decreases |uses|
  {
    var u := uses[0];
    var rest := uses[1..];
    if l == Placeholder(u.info.table, u.assoc.name) || LinkFor(infos, u) == Some(l) {
    } else {
      var drawn := u.assoc.className != Sentinel && LinkFor(infos, u).Some?
                   && KeyOf(key, LinkFor(infos, u).value) !in seen;
      var seen' := if drawn then seen + {KeyOf(key, LinkFor(infos, u).value)} else seen;
      RelLinesComeFromUses(infos, rest, key, seen', l);
      var w :| w in rest && (l == Placeholder(w.info.table, w.assoc.name) || LinkFor(infos, w) == Some(l));
      assert w in uses;
    }
  }

  lemma MermaidTypeLineFree(t: string)
    ensures LineFree(MermaidType(t))
  {
    var r := MermaidType(t);
    assert r == "int" || r == "float" || r == "datetime" || r == "boolean" || r == "string";
  }

  lemma ColumnLineFree(c: Column)
    requires LineFree(c.name)
    ensures LineFree(ColumnLine(c))
  {
    MermaidTypeLineFree(c.colType);
    assert LineFree("        ") && LineFree(" ");
    LineFreeAppend("        ", MermaidType(c.colType));
    LineFreeAppend("        " + MermaidType(c.colType), " ");
    LineFreeAppend("        " + MermaidType(c.colType) + " ", c.name);
  }

  lemma TableLinesLineFree(info: ModelInfo)
    requires LineFree(info.table) && forall c :: c in info.columns ==> LineFree(c.name)
    ensures AllLineFree(TableLines(info))
  {
    var ls := TableLines(info);
    assert LineFree("    ") && LineFree(" {") && LineFree("    }");
    LineFreeAppend("    ", info.table);
    LineFreeAppend("    " + info.table, " {");
    forall k | 0 < k < |ls| - 1
      ensures LineFree(ls[k])
    {
      assert info.columns[k - 1] in info.columns;
      ColumnLineFree(info.columns[k - 1]);
    }
  }

  lemma TableLinesReadBack(info: ModelInfo)
    ensures LineFree(info.table) && (forall c :: c in info.columns ==> LineFree(c.name)) ==>
      SplitLines(JoinLines(TableLines(info))) == TableLines(info)
  {
    if LineFree(info.table) && (forall c :: c in info.columns ==> LineFree(c.name)) {
      TableLinesLineFree(info);
      SplitJoinLines(TableLines(info));
    }
  }

  lemma BlockLinesLineFree(infos: seq<ModelInfo>)
    requires PlainNames(infos)
    ensures forall x :: x in Concat(Blocks(infos)) ==> LineFree(x)
  {
    var bs := Blocks(infos);
    forall x | x in Concat(bs)
      ensures LineFree(x)
    {
      var i :| 0 <= i < |bs| && x in bs[i];
      assert bs[i] == TableLines(infos[i]);
      TableLinesLineFree(infos[i]);
    }
  }

  lemma RelTextsLineFree(infos: seq<ModelInfo>)
    requires PlainNames(infos)
    ensures forall x :: x in RelTexts(infos) ==> LineFree(x)
  {
    var rels := DrawnLines(infos);
    forall x | x in RelTexts(infos)
      ensures LineFree(x)
    {
      var k :| 0 <= k < |rels| && RenderRel(rels[k]) == x;
      RelTextLineFree(infos, rels[k]);
    }
  }

  lemma PlaceholderLineFree(src: string, name: string)
    requires LineFree(src) && LineFree(name)
    ensures LineFree(RenderRel(Placeholder(src, name)))
  {
    var a1 := src + " -- \"(poly:";
    var a2 := a1 + name;
    var a3 := a2 + ")\"";
    assert LineFree("    ") && LineFree(" -- \"(poly:") && LineFree(")\"");
    LineFreeAppend(src, " -- \"(poly:");
    LineFreeAppend(a1, name);
    LineFreeAppend(a2, ")\"");
    LineFreeAppend("    ", a3);
  }

  lemma NotationLineFree(macro: Macro, poly: bool)
    ensures LineFree(Connector(macro)) && LineFree(Label(macro, poly))
  {
  }

  lemma LinkLineFree(src: string, dst: string, macro: Macro, poly: bool)
    requires LineFree(src) && LineFree(dst)
    ensures LineFree(RenderRel(Link(src, dst, macro, poly)))
  {
    var con := Connector(macro);
    var lbl := Label(macro, poly);
    NotationLineFree(macro, poly);
    assert LineFree("    ");
    LineFreeAppend(src, con);
    LineFreeAppend(src + con, dst);
    LineFreeAppend(src + con + dst, lbl);
    LineFreeAppend("    ", src + con + dst + lbl);
  }

  lemma RelTextLineFree(infos: seq<ModelInfo>, l: RelLine)
    requires PlainNames(infos)
    requires l in DrawnLines(infos)
    ensures LineFree(RenderRel(l))
  {
    RelLinesComeFromUses(infos, Uses(infos), EdgeKeyAsWritten, {}, l);
    var u :| u in Uses(infos) && (l == Placeholder(u.info.table, u.assoc.name) || LinkFor(infos, u) == Some(l));
    UsesComeFromInfos(infos, u);
    var i :| 0 <= i < |infos| && infos[i] == u.info;
    assert LineFree(u.info.table) && LineFree(u.assoc.name);
    if LinkFor(infos, u) == Some(l) {
      var dst := FindInfo(infos, u.assoc.className).value;
      var j :| 0 <= j < |infos| && infos[j] == dst;
      assert LineFree(dst.table);
    }
    match l
    case Placeholder(src, name) => PlaceholderLineFree(src, name);
    case Link(src, dst, macro, poly) => LinkLineFree(src, dst, macro, poly);
  }

  lemma DocumentLinesLineFree(infos: seq<ModelInfo>)
    requires PlainNames(infos)
    ensures AllLineFree(DocumentLines(infos))
  {
    BlockLinesLineFree(infos);
    RelTextsLineFree(infos);
    var bs := Blocks(infos);
    var doc := DocumentLines(infos);
    assert doc == [OpenFence, Keyword] + Concat(bs) + RelTexts(infos) + [CloseFence];
    forall k | 0 <= k < |doc|
      ensures LineFree(doc[k])
    {
      assert doc[k] in [OpenFence, Keyword] || doc[k] in Concat(bs) || doc[k] in RelTexts(infos)
          || doc[k] == CloseFence;
    }
  }

  lemma DocumentReadBack(infos: seq<ModelInfo>)
    ensures PlainNames(infos) ==> SplitLines(JoinLines(DocumentLines(infos))) == DocumentLines(infos)
  {
    if PlainNames(infos) {
      DocumentLinesLineFree(infos);
      SplitJoinLines(DocumentLines(infos));
    }
  }

  lemma {:induction false} ConcatPrefixLength(infos: seq<ModelInfo>, i: nat)
    requires i <= |infos|
    ensures |Concat(Blocks(infos)[..i])| + 2 == BlockStart(infos, i)
    decreases i
  {
    if i > 0 {
      ConcatPrefixLength(infos, i - 1);
      assert Blocks(infos)[..i] == Blocks(infos)[..i - 1] + [Blocks(infos)[i - 1]];
      ConcatAppend(Blocks(infos)[..i - 1], Blocks(infos)[i - 1]);
    }
  }

  lemma {:induction false} ConcatSplitAt<T(!new)>(ss: seq<seq<T>>, i: nat)
    requires i < |ss|
    ensures Concat(ss) == Concat(ss[..i]) + ss[i] + Concat(ss[i + 1..])
    decreases i
  {
    if i > 0 {
      ConcatSplitAt(ss[1..], i - 1);
      assert ss[1..][..i - 1] == ss[1..i];
      assert ss[1..][i - 1] == ss[i];
      assert ss[1..][i..] == ss[i + 1..];
      assert ss[..i] == [ss[0]] + ss[1..i];
      assert Concat(ss[..i]) == ss[0] + Concat(ss[1..i]);
    } else {
      assert ss[..0] == [];
    }
  }

  /** The block of `infos[i]` occupies the lines of the diagram from `BlockStart(infos, i)`
      on, in input order and without gaps. */
  lemma BlockLineAt(infos: seq<ModelInfo>, i: int, k: int)
    requires 0 <= i < |infos| && 0 <= k < |infos[i].columns| + 2
    ensures BlockStart(infos, i) + k < |DocumentLines(infos)|
    ensures DocumentLines(infos)[BlockStart(infos, i) + k] == TableLines(infos[i])[k]
  {
    var bs := Blocks(infos);
    var c := Concat(bs);
    var head: seq<string> := [OpenFence, Keyword];
    var rest := RelTexts(infos) + [CloseFence];
    var doc := DocumentLines(infos);
    assert doc == head + c + RelTexts(infos) + [CloseFence];
    AppendAssoc(head + c, RelTexts(infos), [CloseFence]);
    assert doc == head + c + rest;
    ConcatSplitAt(bs, i);
    ConcatPrefixLength(infos, i);
    var before := Concat(bs[..i]);
    var after := Concat(bs[i + 1..]);
    assert bs[i] == TableLines(infos[i]);
    IndexMiddle(before, bs[i], after, k);
    var m := |before| + k;
    assert c[m] == bs[i][k];
    IndexMiddle(head, c, rest, m);
    assert doc[2 + m] == c[m];
  }

  /** The relationship lines follow the last table block, just before the closing fence. */
  lemma DocumentShape(infos: seq<ModelInfo>)
    ensures |DocumentLines(infos)| == BlockStart(infos, |infos|) + |RelTexts(infos)| + 1
    ensures forall k :: 0 <= k < |RelTexts(infos)| ==>
      DocumentLines(infos)[BlockStart(infos, |infos|) + k] == RelTexts(infos)[k]
  {
    var bs := Blocks(infos);
    var doc := DocumentLines(infos);
    assert doc == [OpenFence, Keyword] + Concat(bs) + RelTexts(infos) + [CloseFence];
    ConcatPrefixLength(infos, |infos|);
    assert bs[..|infos|] == bs;
  }

  /** With no associations anywhere, the diagram has no relationship line: only the fences,
      the keyword and the table blocks. */
  lemma NoAssociationsNoRelationships(infos: seq<ModelInfo>)
    requires forall i :: 0 <= i < |infos| ==> infos[i].associations == []
    ensures RelTexts(infos) == []
    ensures DocumentLines(infos) == [OpenFence, Keyword] + Concat(Blocks(infos)) + [CloseFence]
  {
    if Uses(infos) != [] {
      var u := Uses(infos)[0];
      UsesComeFromInfos(infos, u);
    }
  }
}
