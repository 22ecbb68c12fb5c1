/** One changelog line: its text, an optional highlight colour and an indent
    level, and the Markdown line that the debug export writes for it. */
module ChangelogEntry {

  /** C#'s `ushort`, the type of an entry's indent level. */
  type UInt16 = x: int | 0 <= x < 0x1_0000

  /** C#'s `uint`, the type of a packed ABGR colour. */
  type UInt32 = x: int | 0 <= x < 0x1_0000_0000

  /** Colour given to a highlighted entry when the caller names none. */
  const DefaultHighlightColor: UInt32 := 0xFF6060FF

  /** `color == 0` means "draw in the ambient text colour"; `subText` is the
      number of extra indent units. */
  datatype Entry = Entry(text: string, color: UInt32, subText: UInt16)

  datatype Option<T> = None | Some(value: T)

  /** `n` copies of the four-space indent unit. */
  function Indent(n: nat): (s: string)
    ensures |s| == 4 * n
  {
    if n == 0 then [] else Indent(n - 1) + "    "
  }

  /** An indent is made of spaces only. */
  lemma {:induction false} IndentIsSpaces(n: nat)
    ensures forall i :: 0 <= i < |Indent(n)| ==> Indent(n)[i] == ' '
  {
    if n > 0 {
      IndentIsSpaces(n - 1);
      assert Indent(n) == Indent(n - 1) + "    ";
    }
  }

  /** The indent units fenced in backticks, or nothing at level 0. */
  function IndentBlock(n: nat): string
  {
    if n > 0 then "`" + Indent(n) + "`" else ""
  }

  /** The bullet and text, in bold when the entry has a colour of its own. */
  function Bullet(e: Entry): string
  {
    if e.color != 0 then "**- " + e.text + "**" else "- " + e.text
  }

  /** The Markdown line the debug export appends for `e`. */
  function Line(e: Entry): (line: string)
    ensures |line| == 2 + (if e.subText > 0 then 2 + 4 * e.subText else 0)
                      + (if e.color != 0 then 4 else 0) + 2 + |e.text| + 1
    ensures line[..2] == "> " && line[|line| - 1] == '\n'
  {
    "> " + IndentBlock(e.subText) + Bullet(e) + "\n"
  }

  /** The backtick the exporter writes on each side of the indent units. */
  function Fence(n: nat): string
  {
    if n > 0 then "`" else ""
  }

  /** Closing the fence after the loop gives "> " and the indent block. */
  lemma IndentStep(sb: string, n: nat, looped: string)
    requires looped == sb + "> " + Fence(n) + Indent(n)
    ensures looped + Fence(n) == sb + ("> " + IndentBlock(n))
  {
    if n > 0 {
      calc {
        looped + Fence(n);
        sb + "> " + "`" + Indent(n) + "`";
        sb + ("> " + ("`" + Indent(n) + "`"));
      }
    } else {
      assert Indent(n) == [] && Fence(n) == [];
      assert looped + Fence(n) == sb + "> ";
    }
  }

  /** The bold markers and the bullet text written around `text` form `Bullet(e)`. */
  lemma BulletStep(indented: string, e: Entry, r: string)
    requires r == indented + (if e.color != 0 then "**" else "") + "- " + e.text
                   + (if e.color != 0 then "**" else "")
    ensures r + "\n" == indented + (Bullet(e) + "\n")
  {
    if e.color != 0 {
      assert r == indented + ("**- " + e.text + "**");
    } else {
      assert r == indented + ("- " + e.text);
    }
  }

  /** Appends `e`'s line to the text built so far, one indent unit per
      iteration as the exporter does. */
  method Append(e: Entry, sb: string) returns (r: string)
    ensures r == sb + Line(e)
  {
    r := sb + "> ";
    if e.subText > 0 {
      r := r + "`";
    }
    ghost var fenced := r;
    assert fenced == sb + "> " + Fence(e.subText);
    for i := 0 to e.subText
      invariant r == fenced + Indent(i)
    {
      r := r + "    ";
    }
    ghost var looped := r;
    if e.subText > 0 {
      r := r + "`";
    }
    assert r == looped + Fence(e.subText);
    IndentStep(sb, e.subText, looped);
    ghost var indented := r;
    if e.color != 0 {
      r := r + "**";
    }
    r := r + "- " + e.text;
    if e.color != 0 {
      r := r + "**";
    }
    BulletStep(indented, e, r);
    r := r + "\n";
    assert Line(e) == ("> " + IndentBlock(e.subText)) + (Bullet(e) + "\n");
  }

  /** With a positive level the indent is fenced in backticks holding exactly
      `subText` four-space units; at level 0 the bullet follows "> " directly. */
  lemma LineIndent(e: Entry)
    ensures e.subText > 0 ==>
      && Line(e)[2] == '`'
      && Line(e)[3 + 4 * e.subText] == '`'
      && Line(e)[3..3 + 4 * e.subText] == Indent(e.subText)
    ensures e.subText == 0 ==> Line(e)[2] == (if e.color != 0 then '*' else '-')
  {
    var line := Line(e);
    if e.subText > 0 {
      assert line == "> " + ("`" + Indent(e.subText) + "`") + Bullet(e) + "\n";
      assert line[3..3 + 4 * e.subText] == Indent(e.subText);
    } else {
      assert line == "> " + (Bullet(e) + "\n");
    }
  }

  /** The line depends on the colour only through whether it is zero: every
      non-zero colour gives the same line, and that line differs from the
      uncoloured one by the four bold markers. */
  lemma LineSeesOnlyHighlight(text: string, level: UInt16, c1: UInt32, c2: UInt32)
    requires c1 != 0 && c2 != 0
    ensures Line(Entry(text, c1, level)) == Line(Entry(text, c2, level))
    ensures |Line(Entry(text, c1, level))| == |Line(Entry(text, 0, level))| + 4
    ensures Line(Entry(text, c1, level)) != Line(Entry(text, 0, level))
  {
  }

  /** What a Markdown line tells about the entry that produced it. */
  datatype Parsed = Parsed(text: string, subText: nat, highlighted: bool)

  /** Number of spaces at the head of `s`. */
  function LeadingSpaces(s: string): (k: nat)
    ensures k <= |s|
  {
    if |s| > 0 && s[0] == ' ' then 1 + LeadingSpaces(s[1..]) else 0
  }

  /** Reads the optional backtick-fenced indent; returns the level and the rest. */
  function ParseIndent(s: string): Option<(nat, string)>
  {
    if |s| == 0 || s[0] != '`' then Some((0, s))
    else
      var k := LeadingSpaces(s[1..]);
      if k == 0 || k % 4 != 0 || 1 + k >= |s| || s[1 + k] != '`' then None
      else Some((k / 4, s[2 + k..]))
  }

  /** Reads "- text\n" or "**- text**\n". */
  function ParseBullet(s: string): Option<(string, bool)>
  {
    if |s| >= 2 && s[..2] == "**" then
      if |s| >= 7 && s[..4] == "**- " && s[|s| - 3..] == "**\n" then Some((s[4..|s| - 3], true))
      else None
    else if |s| >= 3 && s[..2] == "- " && s[|s| - 1] == '\n' then Some((s[2..|s| - 1], false))
    else None
  }

  /** Inverse of `Line` on everything but the colour's value. */
  function ParseLine(line: string): Option<Parsed>
  {
    if |line| < 2 || line[..2] != "> " then None
    else match ParseIndent(line[2..])
      case None => None
      case Some((level, rest)) =>
        match ParseBullet(rest)
        case None => None
        case Some((text, bold)) => Some(Parsed(text, level, bold))
  }

  lemma {:induction false} LeadingSpacesOfIndent(s: string, t: string)
    requires forall i :: 0 <= i < |s| ==> s[i] == ' '
    ensures LeadingSpaces(s + t) == |s| + LeadingSpaces(t)
  {
    if |s| == 0 {
      assert s + t == t;
    } else {
      assert (s + t)[0] == ' ';
      assert (s + t)[1..] == s[1..] + t;
      LeadingSpacesOfIndent(s[1..], t);
      assert LeadingSpaces(s + t) == 1 + LeadingSpaces(s[1..] + t);
    }
  }

  /** The indent's length gives back its level. */
  lemma QuarterOfIndent(n: nat)
    ensures (4 * n) % 4 == 0 && (4 * n) / 4 == n
  {
  }

  /** The fenced indent is read back as its level. */
  lemma ParseIndentBlock(n: nat, body: string)
    requires body == [] || body[0] != '`'
    ensures ParseIndent(IndentBlock(n) + body) == Some((n, body))
  {
    if n > 0 {
      var tail := "`" + body;
      var u := Indent(n) + tail;
      var s := "`" + u;
      var k := 4 * n;
      assert IndentBlock(n) + body == s;
      assert s[0] == '`' && s[1..] == u;
      IndentIsSpaces(n);
      LeadingSpacesOfIndent(Indent(n), tail);
      assert LeadingSpaces(tail) == 0;
      assert LeadingSpaces(s[1..]) == k;
      QuarterOfIndent(n);
      assert u[k..] == tail;
      assert s[1 + k] == '`';
      assert s[2 + k..] == body;
    } else {
      assert IndentBlock(n) + body == body;
    }
  }

  /** The bullet is read back as the text and whether it was bold. */
  lemma ParseBulletOf(e: Entry)
    ensures ParseBullet(Bullet(e) + "\n") == Some((e.text, e.color != 0))
  {
    var body := Bullet(e) + "\n";
    if e.color != 0 {
      assert body == "**- " + e.text + "**\n";
      assert body[..4] == "**- " && body[..2] == "**";
      assert body[|body| - 3..] == "**\n";
      assert body[4..|body| - 3] == e.text;
    } else {
      assert body == "- " + e.text + "\n";
      assert body[..2] == "- ";
      assert body[2..|body| - 1] == e.text;
    }
  }

  /** Parsing a written line gives back its text, its level and whether it
      was highlighted: the line loses only the colour's exact value. */
  lemma LineRoundTrip(e: Entry)
    ensures ParseLine(Line(e)) == Some(Parsed(e.text, e.subText, e.color != 0))
  {
    var line := Line(e);
    var body := Bullet(e) + "\n";
    assert line[..2] == "> ";
    assert line[2..] == IndentBlock(e.subText) + body;
    assert body[0] == (if e.color != 0 then '*' else '-');
    ParseIndentBlock(e.subText, body);
    ParseBulletOf(e);
  }

  /** Two entries that export to the same line agree on text, level and
      whether they are highlighted. */
  lemma LineDeterminesEntry(a: Entry, b: Entry)
    requires Line(a) == Line(b)
    ensures a.text == b.text && a.subText == b.subText && (a.color != 0 <==> b.color != 0)
  {
    LineRoundTrip(a);
    LineRoundTrip(b);
  }
}
