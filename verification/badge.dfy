/** The coverage badge: its colour from the rate and two thresholds, and the
    `label-message-color` code of a static shields.io badge, in which every
    `_` and `-` of a part is doubled and single dashes separate the parts. */
module Badge {
  import opened Wrappers
  import opened Text

  // ---------------------------------------------------------------------------
  // Colour

  /** `get_badge_color`. */
  function GetBadgeColor(rate: real, minimumGreen: real, minimumOrange: real): (c: string)
    ensures c == "brightgreen" <==> rate >= minimumGreen
    ensures c == "orange" <==> minimumOrange <= rate < minimumGreen
    ensures c == "red" <==> rate < minimumGreen && rate < minimumOrange
  {
    if rate >= minimumGreen then "brightgreen"
    else if rate >= minimumOrange then "orange"
    else "red"
  }

  /** The colours from worst to best. */
  function ColorRank(c: string): int {
    if c == "brightgreen" then 2 else if c == "orange" then 1 else 0
  }

  /** A higher rate never gives a worse colour. */
  lemma BadgeColorMonotone(low: real, high: real, minimumGreen: real, minimumOrange: real)
    requires low <= high
    ensures ColorRank(GetBadgeColor(low, minimumGreen, minimumOrange))
      <= ColorRank(GetBadgeColor(high, minimumGreen, minimumOrange))
  {
  }

  // ---------------------------------------------------------------------------
  // Escaping a part

  /** `s.replace(c, rep)` for a single character `c`. */
  function ReplaceAll(s: string, c: char, rep: string): (r: string)
    ensures c !in rep ==> c !in r
  {
    if |s| == 0 then ""
    else (if s[0] == c then rep else [s[0]]) + ReplaceAll(s[1..], c, rep)
  }

  /** `e.replace('_', '__').replace('-', '--')`. */
  function Escape(e: string): string {
    ReplaceAll(ReplaceAll(e, '_', "__"), '-', "--")
  }

  /** What one character becomes. */
  function EscapeChar(x: char): string {
    if x == '_' then "__" else if x == '-' then "--" else [x]
  }

  lemma {:induction false} ReplaceAllConcat(a: string, b: string, c: char, rep: string)
    ensures ReplaceAll(a + b, c, rep) == ReplaceAll(a, c, rep) + ReplaceAll(b, c, rep)
  {
    if |a| == 0 {
      assert a + b == b;
    } else {
      var ab := a + b;
      var head := if a[0] == c then rep else [a[0]];
      assert ab[0] == a[0] && ab[1..] == a[1..] + b;
      assert ReplaceAll(ab, c, rep) == head + ReplaceAll(a[1..] + b, c, rep);
      ReplaceAllConcat(a[1..], b, c, rep);
      assert ReplaceAll(a, c, rep) == head + ReplaceAll(a[1..], c, rep);
    }
  }

  /** The two replacements never interfere: escaping works character by
      character. */
  lemma EscapeCons(x: char, rest: string)
    ensures Escape([x] + rest) == EscapeChar(x) + Escape(rest)
  {
    ReplaceAllConcat([x], rest, '_', "__");
    var once := ReplaceAll([x], '_', "__");
    assert ReplaceAll([x], '_', "__") == (if x == '_' then "__" else [x]) by {
      assert ([x])[1..] == "";
    }
    ReplaceAllConcat(once, ReplaceAll(rest, '_', "__"), '-', "--");
    if x == '_' {
      assert ReplaceAll("__", '-', "--") == "__" by {
        assert "__"[1..] == "_";
        assert "_"[1..] == "";
      }
    } else {
      assert ReplaceAll([x], '-', "--") == (if x == '-' then "--" else [x]) by {
        assert ([x])[1..] == "";
      }
    }
  }

  function Count(s: string, c: char): nat {
    if |s| == 0 then 0 else (if s[0] == c then 1 else 0) + Count(s[1..], c)
  }

  /** An escaped part is longer by one for each `_` and each `-`. */
  lemma {:induction false} EscapeLength(e: string)
    ensures |Escape(e)| == |e| + Count(e, '_') + Count(e, '-')
  {
    if |e| > 0 {
      EscapeCons(e[0], e[1..]);
      EscapeLength(e[1..]);
      assert [e[0]] + e[1..] == e;
    }
  }

  /** Reads an escaped part back: each doubled `_` or `-` is one character. */
  function Unescape(s: string): string {
    if |s| == 0 then ""
    else if |s| >= 2 && (s[0] == '_' || s[0] == '-') && s[1] == s[0] then [s[0]] + Unescape(s[2..])
    else [s[0]] + Unescape(s[1..])
  }

  /** Escaping loses nothing. */
  lemma {:induction false} UnescapeEscape(e: string)
    ensures Unescape(Escape(e)) == e
  {
    if |e| > 0 {
      EscapeCons(e[0], e[1..]);
      UnescapeEscape(e[1..]);
      var t := EscapeChar(e[0]) + Escape(e[1..]);
      if e[0] == '_' || e[0] == '-' {
        assert t[2..] == Escape(e[1..]);
      } else {
        assert t[1..] == Escape(e[1..]);
      }
      assert [e[0]] + e[1..] == e;
    }
  }

  /** A single dash never occurs inside an escaped part: every `-` of it
      sits in a pair. */
  lemma EscapedDashesPaired(e: string)
    ensures Count(Escape(e), '-') == 2 * Count(e, '-')
  {
    if |e| > 0 {
      EscapeCons(e[0], e[1..]);
      EscapedDashesPaired(e[1..]);
      CountConcat(EscapeChar(e[0]), Escape(e[1..]), '-');
      assert [e[0]] + e[1..] == e;
    }
  }

  lemma {:induction false} CountConcat(a: string, b: string, c: char)
    ensures Count(a + b, c) == Count(a, c) + Count(b, c)
  {
    if |a| == 0 {
      assert a + b == b;
    } else {
      CountConcat(a[1..], b, c);
      assert (a + b)[1..] == a[1..] + b;
    }
  }

  // ---------------------------------------------------------------------------
  // The badge code

  /** `get_static_badge_url` refuses an empty colour or message. */
  datatype BadgeError = MissingColorOrMessage

  /** The non-empty parts, in order. */
  function NonEmpty(parts: seq<string>): (r: seq<string>)
    ensures forall i :: 0 <= i < |r| ==> |r[i]| > 0
    ensures |r| <= |parts|
  {
    if |parts| == 0 then []
    else (if |parts[0]| > 0 then [parts[0]] else []) + NonEmpty(parts[1..])
  }

  function EscapeAll(parts: seq<string>): (r: seq<string>)
    ensures |r| == |parts|
  {
    if |parts| == 0 then [] else [Escape(parts[0])] + EscapeAll(parts[1..])
  }

  /** The `label-message-color` code before URL quoting. */
  function StaticBadgeCode(name: string, message: string, color: string): (r: Result<string, BadgeError>)
    ensures r.Err? <==> color == "" || message == ""
  {
    if color == "" || message == "" then Err(MissingColorOrMessage)
    else
      var kept := NonEmpty([name, message, color]);
      assert |NonEmpty([color])| == 1;
      assert NonEmpty([name, message, color]) == NonEmpty([name]) + NonEmpty([message, color]);
      Ok(Join(EscapeAll(kept), '-'))
  }

  /** Reads a badge code into its parts: a doubled `-` or `_` stands for one
      character, a single `-` ends a part. */
  function Decode(s: string, cur: string): (parts: seq<string>)
    ensures |parts| >= 1
  {
    if |s| == 0 then [cur]
    else if |s| >= 2 && (s[0] == '-' || s[0] == '_') && s[1] == s[0] then Decode(s[2..], cur + [s[0]])
    else if s[0] == '-' then [cur] + Decode(s[1..], "")
    else Decode(s[1..], cur + [s[0]])
  }

  /** Decoding reads an escaped part back whole, whatever follows it. */
  lemma {:induction false} DecodeEscaped(p: string, rest: string, cur: string)
    ensures Decode(Escape(p) + rest, cur) == Decode(rest, cur + p)
  {
    if |p| == 0 {
      assert Escape(p) + rest == rest;
      assert cur + p == cur;
    } else {
      assert p == [p[0]] + p[1..];
      EscapeCons(p[0], p[1..]);
      var s := Escape(p) + rest;
      var more := Escape(p[1..]) + rest;
      assert s == EscapeChar(p[0]) + more;
      if p[0] == '_' || p[0] == '-' {
        assert s[0] == p[0] && s[1] == p[0] && s[2..] == more;
      } else {
        assert s[0] == p[0] && s[1..] == more;
      }
      assert Decode(s, cur) == Decode(more, cur + [p[0]]);
      DecodeEscaped(p[1..], rest, cur + [p[0]]);
      assert cur + [p[0]] + p[1..] == cur + p;
    }
  }

  /** An escaped part that does not start with `-` does not start with `-`
      once escaped either. */
  lemma EscapeFirst(q: string)
    requires |q| > 0 && q[0] != '-'
    ensures |Escape(q)| > 0 && Escape(q)[0] != '-'
  {
    EscapeCons(q[0], q[1..]);
    assert q == [q[0]] + q[1..];
  }

  /** No part after the first starts with a dash. */
  predicate DecodableParts(parts: seq<string>) {
    && (forall i :: 0 <= i < |parts| ==> |parts[i]| > 0)
    && (forall i :: 1 <= i < |parts| ==> parts[i][0] != '-')
  }

  /** The code gives its parts back when no part after the first starts
      with a dash. */
  lemma {:induction false} DecodeJoin(parts: seq<string>)
    requires |parts| >= 1 && DecodableParts(parts)
    ensures Decode(Join(EscapeAll(parts), '-'), "") == parts
  {
    var e := EscapeAll(parts);
    if |parts| == 1 {
      DecodeEscaped(parts[0], "", "");
      assert Join(e, '-') == Escape(parts[0]) + "";
    } else {
      var tail := Join(e[1..], '-');
      assert e[1..] == EscapeAll(parts[1..]);
      assert Join(e, '-') == Escape(parts[0]) + ("-" + tail);
      DecodeEscaped(parts[0], "-" + tail, "");
      assert "" + parts[0] == parts[0];
      DecodeJoin(parts[1..]);
      FirstJoined(parts[1..]);
      var s := "-" + tail;
      assert s[1..] == tail;
      assert Decode(s, parts[0]) == [parts[0]] + Decode(tail, "");
      assert parts == [parts[0]] + parts[1..];
    }
  }

  lemma FirstJoined(parts: seq<string>)
    requires |parts| >= 1 && DecodableParts(parts) && parts[0][0] != '-'
    ensures |Join(EscapeAll(parts), '-')| > 0 && Join(EscapeAll(parts), '-')[0] != '-'
  {
    EscapeFirst(parts[0]);
    var e := EscapeAll(parts);
    if |parts| > 1 {
      assert Join(e, '-') == e[0] + ['-'] + Join(e[1..], '-');
    }
  }

  /** When message and colour do not start with a dash, the badge code reads
      back as the non-empty parts among name, message and colour. */
  lemma StaticBadgeCodeRoundTrip(name: string, message: string, color: string)
    requires message != "" && color != ""
    requires message[0] != '-' && color[0] != '-'
    ensures StaticBadgeCode(name, message, color).Ok?
    ensures Decode(StaticBadgeCode(name, message, color).value, "") == NonEmpty([name, message, color])
  {
    var kept := NonEmpty([name, message, color]);
    KeptParts(name, message, color);
    assert DecodableParts(kept);
    DecodeJoin(kept);
  }

  /** Which parts the code keeps when message and colour are present. */
  lemma KeptParts(name: string, message: string, color: string)
    requires message != "" && color != ""
    ensures NonEmpty([name, message, color]) == if name == "" then [message, color] else [name, message, color]
  {
    var all := [name, message, color];
    assert all[1..] == [message, color] && all[1..][1..] == [color] && [color][1..] == [];
    assert NonEmpty([color]) == [color];
    assert NonEmpty([message, color]) == [message, color];
  }

  /** The code does not tell where a dash at the end of one part and a dash
      at the start of the next belong: moving a dash across the boundary
      gives the same code. */
  lemma StaticBadgeCodeAmbiguous(x: string, y: string, z: string)
    requires x != "" && y != "" && z != ""
    ensures StaticBadgeCode(x + "-", y, z) == StaticBadgeCode(x, "-" + y, z)
  {
    StaticBadgeCodeThree(x + "-", y, z);
    StaticBadgeCodeThree(x, "-" + y, z);
    EscapeConcat(x, "-");
    EscapeConcat("-", y);
    EscapeDash();
    var ex, ey, ez := Escape(x), Escape(y), Escape(z);
    assert (ex + "--") + "-" + ey + "-" + ez == ex + "-" + ("--" + ey) + "-" + ez;
  }

  lemma EscapeDash()
    ensures Escape("-") == "--"
  {
    EscapeSingle('-');
    assert ['-'] == "-";
  }

  /** Escaping works piece by piece. */
  lemma EscapeConcat(a: string, b: string)
    ensures Escape(a + b) == Escape(a) + Escape(b)
  {
    ReplaceAllConcat(a, b, '_', "__");
    ReplaceAllConcat(ReplaceAll(a, '_', "__"), ReplaceAll(b, '_', "__"), '-', "--");
  }

  /** With all three parts present, the code is the three escaped parts
      joined by single dashes. */
  lemma StaticBadgeCodeThree(name: string, message: string, color: string)
    requires name != "" && message != "" && color != ""
    ensures StaticBadgeCode(name, message, color) == Ok(Escape(name) + "-" + Escape(message) + "-" + Escape(color))
  {
    KeptParts(name, message, color);
    JoinThree(name, message, color);
  }

  lemma EscapeSingle(x: char)
    ensures Escape([x]) == EscapeChar(x)
  {
    EscapeCons(x, "");
    assert [x] + "" == [x];
    assert Escape("") == "";
  }

  /** The code of three present parts. */
  lemma JoinThree(x: string, y: string, z: string)
    ensures Join(EscapeAll([x, y, z]), '-') == Escape(x) + "-" + Escape(y) + "-" + Escape(z)
  {
    var parts := [x, y, z];
    assert parts[1..] == [y, z] && parts[1..][1..] == [z] && [z][1..] == [];
    assert EscapeAll([z]) == [Escape(z)];
    assert EscapeAll([y, z]) == [Escape(y)] + EscapeAll([z]);
    assert EscapeAll(parts) == [Escape(x)] + EscapeAll([y, z]);
    var e := [Escape(x), Escape(y), Escape(z)];
    assert e[1..] == [Escape(y), Escape(z)] && e[1..][1..] == [Escape(z)];
    assert Join(e[1..], '-') == Escape(y) + "-" + Escape(z);
  }
}
