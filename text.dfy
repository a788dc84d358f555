/** String helpers the transcribers rely on: Python's `str.strip()`,
    `str.lower()` and `"\n".join(...)`, restricted to ASCII. */
module Text {

  /** The ASCII characters `str.strip()` removes: space, tab through
      carriage return (tab, line feed, vertical tab, form feed, return), and
      the four separators file, group, record and unit (0x1C to 0x1F), which
      Python's `str.isspace()` also counts as whitespace. */
  predicate IsSpace(c: char) {
    c == ' ' || '\t' <= c <= '\r' || '\U{1C}' <= c <= '\U{1F}'
  }

  /** True of a string made only of whitespace (the empty string included). */
  predicate Blank(s: string) {
    forall k :: 0 <= k < |s| ==> IsSpace(s[k])
  }

  /** `s` with its leading whitespace removed. */
  function StripStart(s: string): (r: string)
    ensures |r| <= |s|
  {
    if s != [] && IsSpace(s[0]) then StripStart(s[1..]) else s
  }

  /** `s` with its trailing whitespace removed. */
  function StripEnd(s: string): (r: string)
    ensures |r| <= |s|
  {
    if s != [] && IsSpace(s[|s| - 1]) then StripEnd(s[..|s| - 1]) else s
  }

  /** `StripStart` drops a blank prefix and keeps the rest, which is empty
      or starts with a non-space. */
  lemma {:induction false} StripStartSpec(s: string)
    ensures var r := StripStart(s);
      && r == s[|s| - |r|..]
      && Blank(s[..|s| - |r|])
      && (r == [] || !IsSpace(r[0]))
  {
    if s != [] && IsSpace(s[0]) {
      StripStartSpec(s[1..]);
      var r := StripStart(s[1..]);
      assert s[1..][..|s| - 1 - |r|] == s[1..|s| - |r|];
    }
  }

  /** `StripEnd` drops a blank suffix and keeps the rest, which is empty or
      ends with a non-space. */
  lemma {:induction false} StripEndSpec(s: string)
    ensures var r := StripEnd(s);
      && r == s[..|r|]
      && Blank(s[|r|..])
      && (r == [] || !IsSpace(r[|r| - 1]))
  {
    if s != [] && IsSpace(s[|s| - 1]) {
      StripEndSpec(s[..|s| - 1]);
      var r := StripEnd(s[..|s| - 1]);
      assert s[..|s| - 1][|r|..] == s[|r|..|s| - 1];
    }
  }

  /** `str.strip()`: the part of `s` between its leading and its trailing
      whitespace. When it is not empty it starts and ends with a non-space
      character; `StripBlank` says when it is empty. */
  function Strip(s: string): (r: string)
    ensures |r| <= |s|
    ensures r != [] ==> !IsSpace(r[0]) && !IsSpace(r[|r| - 1])
  {
    StripStartSpec(s);
    StripEndSpec(StripStart(s));
    StripEnd(StripStart(s))
  }

  /** The stripped text is empty exactly when the raw text is blank. */
  lemma StripBlank(s: string)
    ensures Strip(s) == [] <==> Blank(s)
  {
    var t := StripStart(s);
    StripStartSpec(s);
    StripEndSpec(t);
    if Strip(s) == [] {
      forall k | 0 <= k < |s| ensures IsSpace(s[k]) {
        if k < |s| - |t| {
          assert s[k] == s[..|s| - |t|][k];
        }
      }
    } else {
      assert Strip(s)[0] == t[0];
    }
  }

  /** True of a non-empty text with no whitespace at either end: what
      `str.strip()` returns whenever it returns something non-empty. */
  predicate Stripped(s: string) {
    s != [] && !IsSpace(s[0]) && !IsSpace(s[|s| - 1])
  }

  /** A text with no whitespace at either end is its own stripped form. */
  lemma StrippedFixed(s: string)
    requires Stripped(s)
    ensures Strip(s) == s
  {
    assert StripStart(s) == s;
    assert StripEnd(s) == s;
  }

  /** Stripping a stripped string changes nothing. */
  lemma StripIdempotent(s: string)
    ensures Strip(Strip(s)) == Strip(s)
  {
    var r := Strip(s);
    if r != [] {
      StrippedFixed(r);
    }
  }

  /** True of texts that are all non-empty and already stripped. */
  ghost predicate AllStripped(texts: seq<string>) {
    forall k :: 0 <= k < |texts| ==> Stripped(texts[k])
  }

  /** A freshly stripped, non-empty text keeps a list of stripped texts so. */
  lemma AllStrippedAppend(texts: seq<string>, raw: string)
    requires AllStripped(texts)
    requires Strip(raw) != []
    ensures AllStripped(texts + [Strip(raw)])
  {
    var r := texts + [Strip(raw)];
    forall k | 0 <= k < |r| ensures Stripped(r[k]) {
      if k < |texts| {
        assert r[k] == texts[k];
      }
    }
  }

  /** `str.lower()` on one character: ASCII upper-case letters become lower case. */
  function LowerChar(c: char): (r: char)
    ensures !('A' <= r <= 'Z')
    ensures r != c ==> 'A' <= c <= 'Z' && r as int - 'a' as int == c as int - 'A' as int
  {
    if 'A' <= c <= 'Z' then (c as int + 32) as char else c
  }

  /** `str.lower()`: every character folded, the length kept. */
  function Lower(s: string): (r: string)
    ensures |r| == |s|
  {
    if s == [] then [] else [LowerChar(s[0])] + Lower(s[1..])
  }

  /** Each character of `Lower(s)` is the folded character of `s`. */
  lemma {:induction false} LowerAt(s: string, k: nat)
    requires k < |s|
    ensures Lower(s)[k] == LowerChar(s[k])
  {
    if k > 0 {
      LowerAt(s[1..], k - 1);
    }
  }

  /** Lower-casing a lower-cased text changes nothing. */
  lemma {:induction false} LowerIdempotent(s: string)
    ensures Lower(Lower(s)) == Lower(s)
  {
    if s != [] {
      LowerIdempotent(s[1..]);
      assert Lower(s)[1..] == Lower(s[1..]);
    }
  }

  /** The comparison `text1.lower() == text2.lower()` used by the exact
      transcribers to decide that two recognised texts are duplicates. */
  predicate SameIgnoringCase(text1: string, text2: string) {
    Lower(text1) == Lower(text2)
  }

  /** Two strings are duplicates exactly when they have the same length and
      agree position by position once each character is folded. */
  lemma SameIgnoringCaseByChars(a: string, b: string)
    ensures SameIgnoringCase(a, b) <==>
      |a| == |b| && forall k :: 0 <= k < |a| ==> LowerChar(a[k]) == LowerChar(b[k])
  {
    forall k | 0 <= k < |a| && k < |b| ensures Lower(a)[k] == LowerChar(a[k]) && Lower(b)[k] == LowerChar(b[k]) {
      LowerAt(a, k);
      LowerAt(b, k);
    }
  }

  /** `sep.join(parts)`: the parts with `sep` between neighbours. */
  function Join(parts: seq<string>, sep: string): (r: string)
    ensures parts == [] ==> r == []
    ensures |parts| == 1 ==> r == parts[0]
  {
    if parts == [] then []
    else if |parts| == 1 then parts[0]
    else parts[0] + sep + Join(parts[1..], sep)
  }

  /** Joining two non-empty lists of parts in one go puts one separator
      between the two joined halves. */
  lemma {:induction false} JoinAppend(a: seq<string>, b: seq<string>, sep: string)
    requires a != [] && b != []
    ensures Join(a + b, sep) == Join(a, sep) + sep + Join(b, sep)
  {
    assert (a + b)[0] == a[0];
    if |a| == 1 {
      assert (a + b)[1..] == b;
    } else {
      assert (a + b)[1..] == a[1..] + b;
      JoinAppend(a[1..], b, sep);
      var x, y := a[0] + sep, Join(a[1..], sep) + sep;
      Regroup3(x, y, Join(b, sep));
      Regroup3(x, Join(a[1..], sep), sep);
    }
  }

  /** The file text made of `lines`, each followed by a line feed. */
  function Lines(lines: seq<string>): (r: string)
    ensures lines == [] <==> r == []
  {
    if lines == [] then [] else lines[0] + "\n" + Lines(lines[1..])
  }

  /** Writing `"\n".join(parts) + "\n"` writes every part as its own line. */
  lemma {:induction false} JoinedLines(parts: seq<string>)
    requires parts != []
    ensures Join(parts, "\n") + "\n" == Lines(parts)
  {
    if |parts| == 1 {
      assert parts[1..] == [];
    } else {
      JoinedLines(parts[1..]);
      calc {
        Join(parts, "\n") + "\n";
        parts[0] + "\n" + Join(parts[1..], "\n") + "\n";
        parts[0] + "\n" + (Join(parts[1..], "\n") + "\n");
        parts[0] + "\n" + Lines(parts[1..]);
      }
    }
  }

  /** Appends regroup freely: two writes in a row add their texts in order. */
  lemma Regroup3<T>(a: seq<T>, b: seq<T>, c: seq<T>)
    ensures (a + b) + c == a + (b + c)
  {
  }

  /** Lines of consecutive writes concatenate. */
  lemma {:induction false} LinesAppend(a: seq<string>, b: seq<string>)
    ensures Lines(a + b) == Lines(a) + Lines(b)
  {
    if a == [] {
      assert a + b == b;
    } else {
      assert (a + b)[1..] == a[1..] + b;
      LinesAppend(a[1..], b);
    }
  }

  /** Writing `text + "\n"` to a file that holds `before` and then `lines`
      adds `text` as one more line. */
  lemma AppendLine(before: string, lines: seq<string>, text: string)
    ensures before + Lines(lines + [text]) == before + Lines(lines) + text + "\n"
  {
    LinesAppend(lines, [text]);
    assert [text][1..] == [];
  }

  /** Keeps the `texts[k]` whose flag `keep[k]` is set, in order. */
  function Select(texts: seq<string>, keep: seq<bool>): (r: seq<string>)
    requires |keep| == |texts|
    ensures |r| <= |texts|
  {
    if texts == [] then []
    else (if keep[0] then [texts[0]] else []) + Select(texts[1..], keep[1..])
  }

  /** Selecting from a longer history extends the selection by the new
      entry exactly when its flag is set. */
  lemma {:induction false} SelectSnoc(texts: seq<string>, keep: seq<bool>, t: string, b: bool)
    requires |keep| == |texts|
    ensures Select(texts + [t], keep + [b]) == Select(texts, keep) + (if b then [t] else [])
  {
    if texts == [] {
      assert texts + [t] == [t] && keep + [b] == [b];
    } else {
      assert (texts + [t])[1..] == texts[1..] + [t];
      assert (keep + [b])[1..] == keep[1..] + [b];
      SelectSnoc(texts[1..], keep[1..], t, b);
      var head := if keep[0] then [texts[0]] else [];
      var rest := Select(texts[1..], keep[1..]);
      var last := if b then [t] else [];
      assert head + (rest + last) == (head + rest) + last;
    }
  }
}
