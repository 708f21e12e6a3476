/**
 * PkgColorizer::to_escape and the colour table it reads: colour names, possibly
 * composed with commas ("bold,cyan"), become ANSI escape sequences; a value
 * that does not start with a letter is taken to be an escape sequence already.
 */
module ColorEscape {

  /** The escape character, "\033". */
  const ESC: char := 27 as char

  /** color_to_escape: the fixed table of colour names. */
  const ColorToEscape: map<string, string> := map[
    "bold" := "\U{1B}[1m",
    "dim" := "\U{1B}[2m",
    "underline" := "\U{1B}[4m",
    "blink" := "\U{1B}[5m",
    "reverse" := "\U{1B}[7m",
    "black" := "\U{1B}[30m",
    "red" := "\U{1B}[31m",
    "green" := "\U{1B}[32m",
    "brown" := "\U{1B}[33m",
    "blue" := "\U{1B}[34m",
    "magenta" := "\U{1B}[35m",
    "cyan" := "\U{1B}[36m",
    "gray" := "\U{1B}[37m",
    "white" := "\U{1B}[1;37m"
  ]

  /** isalpha in the C locale. */
  predicate IsAlpha(c: char)
  {
    'a' <= c <= 'z' || 'A' <= c <= 'Z'
  }

  /** utils::string::split on a one-character delimiter: every segment, empty ones included. */
  function Split(s: string, d: char): (parts: seq<string>)
    ensures |parts| >= 1
    ensures forall i :: 0 <= i < |parts| ==> d !in parts[i]
  {
    if s == [] then [[]]
    else
      var rest := Split(s[1..], d);
      if s[0] == d then [[]] + rest
      else [[s[0]] + rest[0]] + rest[1..]
  }

  /** The segments put back together with the delimiter between them. */
  function Join(parts: seq<string>, d: char): (joined: string)
  {
    if parts == [] then []
    else if |parts| == 1 then parts[0]
    else parts[0] + [d] + Join(parts[1..], d)
  }

  /** The escape a single segment contributes under `table`: its entry, or nothing. */
  function PartEscape(table: map<string, string>, part: string): (escape: string)
  {
    if part in table then table[part] else []
  }

  /** The escapes `table` gives the segments found in it, concatenated in order. */
  function EscapesOf(table: map<string, string>, parts: seq<string>): (out: string)
    decreases |parts|
  {
    if parts == [] then []
    else EscapesOf(table, parts[..|parts| - 1]) + PartEscape(table, parts[|parts| - 1])
  }

  /** What to_escape returns for `color`. */
  function EscapeOf(color: string): (out: string)
  {
    if color == [] then []
    else if !IsAlpha(color[0]) then color
    else EscapesOf(ColorToEscape, Split(color, ','))
  }

  /** to_escape: the loop over the comma-separated parts, appending each known escape. */
  method ToEscape(color: string) returns (output: string)
    ensures output == EscapeOf(color)
  {
    if color == [] {
      return [];
    }
    if !IsAlpha(color[0]) {
      return color;
    }
    output := [];
    var parts := Split(color, ',');
    for i := 0 to |parts|
      invariant output == EscapesOf(ColorToEscape, parts[..i])
    {
      var c := parts[i];
      assert parts[..i + 1][..i] == parts[..i];
      if c in ColorToEscape {
        output := output + ColorToEscape[c];
      }
    }
    assert parts[..|parts|] == parts;
  }

  // ---------------------------------------------------------------------------
  // Properties.
  // ---------------------------------------------------------------------------

  /** Joining the segments of a split gives the original string back. */
  lemma {:induction false} SplitJoin(s: string, d: char)
    ensures Join(Split(s, d), d) == s
  {
    if s != [] {
      SplitJoin(s[1..], d);
      var rest := Split(s[1..], d);
      if s[0] == d {
        assert Split(s, d)[1..] == rest;
      } else {
        var parts := Split(s, d);
        if |rest| > 1 {
          assert parts[1..] == rest[1..];
          assert Join(rest, d) == rest[0] + [d] + Join(rest[1..], d);
        }
      }
    }
  }

  /** A string without the delimiter is a single segment. */
  lemma {:induction false} SplitUndelimited(s: string, d: char)
    requires d !in s
    ensures Split(s, d) == [s]
  {
    if s != [] {
      SplitUndelimited(s[1..], d);
      assert [s[0]] + s[1..] == s;
    }
  }

  /** The table's names. */
  lemma TableNames()
    ensures ColorToEscape.Keys == {"bold", "dim", "underline", "blink", "reverse", "black", "red",
                                    "green", "brown", "blue", "magenta", "cyan", "gray", "white"}
  {
  }

  /** The fourteen names are distinct. */
  lemma FourteenNames()
    ensures |{"bold", "dim", "underline", "blink", "reverse", "black", "red",
              "green", "brown", "blue", "magenta", "cyan", "gray", "white"}| == 14
  {
  }

  /** The table has 14 entries. */
  lemma TableSize()
    ensures |ColorToEscape| == 14
  {
    TableNames();
    FourteenNames();
  }

  /** Every name in the table is a run of lower-case letters, so it starts with a letter and has no comma. */
  lemma NameShape(name: string)
    requires name in ColorToEscape
    ensures name != [] && IsAlpha(name[0]) && ',' !in name
  {
    if name == "bold" {} else if name == "dim" {} else if name == "underline" {}
    else if name == "blink" {} else if name == "reverse" {} else if name == "black" {}
    else if name == "red" {} else if name == "green" {} else if name == "brown" {}
    else if name == "blue" {} else if name == "magenta" {} else if name == "cyan" {}
    else if name == "gray" {} else {}
  }

  /** Every entry is a non-empty escape sequence starting with ESC. */
  lemma EntryIsEscape(name: string)
    requires name in ColorToEscape
    ensures |ColorToEscape[name]| > 1 && ColorToEscape[name][0] == ESC
  {
    if name == "bold" {} else if name == "dim" {} else if name == "underline" {}
    else if name == "blink" {} else if name == "reverse" {} else if name == "black" {}
    else if name == "red" {} else if name == "green" {} else if name == "brown" {}
    else if name == "blue" {} else if name == "magenta" {} else if name == "cyan" {}
    else if name == "gray" {} else {}
  }

  /** The escapes of a list of segments are the escapes of its two halves. */
  lemma {:induction false} EscapesOfAppend(table: map<string, string>, a: seq<string>, b: seq<string>)
    ensures EscapesOf(table, a + b) == EscapesOf(table, a) + EscapesOf(table, b)
    decreases |b|
  {
    if b == [] {
      assert a + b == a;
    } else {
      var n := |b|;
      assert (a + b)[..|a + b| - 1] == a + b[..n - 1];
      EscapesOfAppend(table, a, b[..n - 1]);
    }
  }

  /**
   * Segments not in the table contribute nothing: the escapes are empty exactly
   * when no segment is a known name, and otherwise start with ESC.
   */
  lemma {:induction false} EscapesShape(parts: seq<string>)
    ensures EscapesOf(ColorToEscape, parts) == [] <==> forall i :: 0 <= i < |parts| ==> parts[i] !in ColorToEscape
    ensures EscapesOf(ColorToEscape, parts) != [] ==> EscapesOf(ColorToEscape, parts)[0] == ESC
    decreases |parts|
  {
    if parts != [] {
      var last := parts[|parts| - 1];
      EscapesShape(parts[..|parts| - 1]);
      if last in ColorToEscape {
        EntryIsEscape(last);
      }
    }
  }

  /** to_escape's result is "" or starts with ESC, unless the input already started with a non-letter. */
  lemma EscapeOfShape(color: string)
    ensures var out := EscapeOf(color);
            out == [] || !IsAlpha(out[0])
  {
    if color != [] && IsAlpha(color[0]) {
      EscapesShape(Split(color, ','));
    }
  }

  /** A colour given by name yields nothing exactly when none of its comma-separated parts is a known name. */
  lemma EscapeOfNothing(color: string)
    requires color != [] && IsAlpha(color[0])
    ensures var parts := Split(color, ',');
            EscapeOf(color) == [] <==> forall i :: 0 <= i < |parts| ==> parts[i] !in ColorToEscape
  {
    var parts := Split(color, ',');
    assert EscapeOf(color) == EscapesOf(ColorToEscape, parts);
    EscapesShape(parts);
    assert EscapesOf(ColorToEscape, parts) == [] <==> forall i :: 0 <= i < |parts| ==> parts[i] !in ColorToEscape;
  }

  /** to_escape is idempotent: its output passes through a second application unchanged. */
  lemma EscapeOfIdempotent(color: string)
    ensures EscapeOf(EscapeOf(color)) == EscapeOf(color)
  {
    EscapeOfShape(color);
  }

  /** A single known colour name becomes its table entry. */
  lemma EscapeOfName(name: string)
    requires name in ColorToEscape
    ensures EscapeOf(name) == ColorToEscape[name]
  {
    NameShape(name);
    SplitUndelimited(name, ',');
    assert EscapesOf(ColorToEscape, [name]) == EscapesOf(ColorToEscape, []) + PartEscape(ColorToEscape, name);
  }

  /** The first segment ends at the first delimiter. */
  lemma {:induction false} SplitFirst(first: string, rest: string, d: char)
    requires d !in first
    ensures Split(first + [d] + rest, d) == [first] + Split(rest, d)
  {
    if first != [] {
      assert (first + [d] + rest)[1..] == first[1..] + [d] + rest;
      SplitFirst(first[1..], rest, d);
      assert [first[0]] + first[1..] == first;
    } else {
      assert first + [d] + rest == [d] + rest;
      assert ([d] + rest)[1..] == rest;
    }
  }

  /** The escapes of a two-part list. */
  lemma EscapesOfTwo(table: map<string, string>, a: string, b: string)
    ensures EscapesOf(table, [a, b]) == PartEscape(table, a) + PartEscape(table, b)
  {
    assert [a, b][..1] == [a] && [a][..0] == [];
    assert EscapesOf(table, [a]) == EscapesOf(table, []) + PartEscape(table, a);
    assert [] + PartEscape(table, a) == PartEscape(table, a);
  }

  /** The escapes of a three-part list. */
  lemma EscapesOfThree(table: map<string, string>, a: string, u: string, b: string)
    ensures EscapesOf(table, [a, u, b]) == PartEscape(table, a) + PartEscape(table, u) + PartEscape(table, b)
  {
    assert [a, u, b][..2] == [a, u];
    EscapesOfTwo(table, a, u);
  }

  /** Two comma-free strings joined by a comma split back into the two. */
  lemma SplitTwo(a: string, b: string)
    requires ',' !in a && ',' !in b
    ensures Split(a + [','] + b, ',') == [a, b]
  {
    SplitFirst(a, b, ',');
    SplitUndelimited(b, ',');
  }

  /** Three comma-free strings joined by commas split back into the three. */
  lemma SplitThree(a: string, u: string, b: string)
    requires ',' !in a && ',' !in u && ',' !in b
    ensures Split(a + [','] + u + [','] + b, ',') == [a, u, b]
  {
    assert a + [','] + u + [','] + b == a + [','] + (u + [','] + b);
    SplitFirst(a, u + [','] + b, ',');
    SplitTwo(u, b);
  }

  /** Two known names joined by a comma give their two escapes, in order. */
  lemma EscapeOfPair(a: string, b: string)
    requires a in ColorToEscape && b in ColorToEscape
    ensures EscapeOf(a + [','] + b) == ColorToEscape[a] + ColorToEscape[b]
  {
    NameShape(a);
    NameShape(b);
    SplitTwo(a, b);
    EscapesOfTwo(ColorToEscape, a, b);
  }

  /** A part between two known names that is not itself a known name, the empty part included, is dropped. */
  lemma EscapeOfDropsUnknown(a: string, u: string, b: string)
    requires a in ColorToEscape && b in ColorToEscape
    requires u !in ColorToEscape && ',' !in u
    ensures EscapeOf(a + [','] + u + [','] + b) == ColorToEscape[a] + ColorToEscape[b]
  {
    NameShape(a);
    NameShape(b);
    SplitThree(a, u, b);
    EscapesOfThree(ColorToEscape, a, u, b);
  }

  /** "bold,cyan" becomes bold followed by cyan. */
  lemma EscapeOfComposed()
    ensures EscapeOf("bold" + "," + "cyan") == "\U{1B}[1m" + "\U{1B}[36m"
  {
    EscapeOfPair("bold", "cyan");
  }

  /** An unknown name between two known ones changes nothing. */
  lemma EscapeOfUnknownPart()
    ensures EscapeOf("bold" + "," + "nosuchcolor" + "," + "cyan") == "\U{1B}[1m" + "\U{1B}[36m"
  {
    assert "nosuchcolor" !in ColorToEscape by {
      TableNames();
    }
    EscapeOfDropsUnknown("bold", "nosuchcolor", "cyan");
  }

  /** A single name maps through the table; an escape sequence passes through. */
  lemma EscapeOfSingle()
    ensures EscapeOf("white") == "\U{1B}[1;37m"
    ensures EscapeOf("\U{1B}[32m") == "\U{1B}[32m"
  {
    EscapeOfName("white");
  }
}
