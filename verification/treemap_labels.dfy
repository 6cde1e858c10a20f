/**
 * Two string helpers of the phylogenetic treemap: the label truncation that
 * fits a description into its tile (about 7 pixels per character), and the
 * sanitisation that turns a node's code into a DOM id.
 */
module TreemapLabels {

  /** A tile of the treemap layout. */
  datatype Tile = Tile(x0: real, y0: real, x1: real, y1: real)

  const Ellipsis: string := "…"

  /** Tiles narrower than this, or lower than `MinHeight`, get a single character. */
  const MinWidth: real := 40.0
  const MinHeight: real := 20.0

  /** The estimated width of one character, in pixels. */
  const CharWidth: real := 7.0

  /** `Math.floor(w / 7)`: how many characters fit in a tile of width `w`. */
  function MaxChars(w: real): int
  {
    (w / CharWidth).Floor
  }

  function IsTiny(d: Tile): bool
  {
    d.x1 - d.x0 < MinWidth || d.y1 - d.y0 < MinHeight
  }

  /** JavaScript's `s.slice(0, end)`: a negative end counts from the back, and the end is clamped. */
  function SliceTo(s: string, end: int): (r: string)
    ensures r <= s
    ensures 0 <= end <= |s| ==> r == s[..end]
    ensures end >= |s| ==> r == s
  {
    if end < 0 then (if |s| + end <= 0 then [] else s[..|s| + end])
    else if end <= |s| then s[..end]
    else s
  }

  /** JavaScript's `s[0]` used as a string: the empty string has no index 0 and reads as "undefined". */
  function FirstCharAsWritten(s: string): string
  {
    if |s| > 0 then [s[0]] else "undefined"
  }

  /** The part of the truncation for a tile that is not tiny (the `maxChars` branches). */
  function TruncateToWidth(text: string, w: real): string
  {
    var maxChars := MaxChars(w);
    if |text| <= maxChars then text
    else if maxChars <= 3 then SliceTo(text, 1) + Ellipsis
    else SliceTo(text, maxChars - 1) + Ellipsis
  }

  /** The label truncation as written: a tiny tile shows `text[0] + "…"`. */
  function TruncateLabelAsWritten(text: string, d: Tile): string
  {
    if IsTiny(d) then FirstCharAsWritten(text) + Ellipsis
    else TruncateToWidth(text, d.x1 - d.x0)
  }

  /**
   * The empty description (the caller substitutes "" for a missing one) in a
   * tiny tile is labelled "undefined…".
   */
  lemma EmptyLabelReadsUndefined()
    ensures TruncateLabelAsWritten("", Tile(0.0, 0.0, 10.0, 10.0)) == "undefined…"
  {
  }

  /**
   * The label truncation with the tiny-tile case taking the first character
   * as a slice, as the `maxChars <= 3` branch already does, so that the
   * label never holds characters the description does not have.
   */
  function TruncateLabel(text: string, d: Tile): (r: string)
    ensures r == text || exists k :: 0 <= k <= |text| && r == text[..k] + Ellipsis
    ensures IsTiny(d) ==> r == SliceTo(text, 1) + Ellipsis
    ensures !IsTiny(d) ==> |r| <= MaxChars(d.x1 - d.x0)
    ensures !IsTiny(d) ==> (r == text <==> |text| <= MaxChars(d.x1 - d.x0))
    ensures !IsTiny(d) && |text| > MaxChars(d.x1 - d.x0) ==>
      r == text[..MaxChars(d.x1 - d.x0) - 1] + Ellipsis
  {
    if IsTiny(d) then
      var k := if |text| < 1 then |text| else 1;
      assert SliceTo(text, 1) == text[..k];
      SliceTo(text, 1) + Ellipsis
    else
      var w := d.x1 - d.x0;
      WideTileHasRoom(w);
      var maxChars := MaxChars(w);
      if |text| <= maxChars then text
      else
        assert SliceTo(text, maxChars - 1) == text[..maxChars - 1];
        assert |text[..maxChars - 1] + Ellipsis| == maxChars;
        TruncateToWidth(text, w)
  }

  /** Outside the tiny case the two definitions agree. */
  lemma TruncationAgreesOnNonTiny(text: string, d: Tile)
    requires !IsTiny(d) || |text| > 0
    ensures TruncateLabel(text, d) == TruncateLabelAsWritten(text, d)
  {
    if IsTiny(d) {
      assert SliceTo(text, 1) == [text[0]];
    }
  }

  /**
   * A tile at least 40 pixels wide fits at least 5 characters, so the
   * `maxChars <= 3` branch is never taken.
   */
  lemma {:induction false} WideTileHasRoom(w: real)
    requires w >= MinWidth
    ensures MaxChars(w) >= 5
  {
    assert w / CharWidth >= 5.0 by {
      assert 5.0 * CharWidth <= w;
    }
  }

  // ---------------------------------------------------------------------
  // DOM ids
  // ---------------------------------------------------------------------

  /** `\w` of a regular expression without the `u` flag, or '-'. */
  predicate IsIdChar(c: char)
  {
    ('a' <= c <= 'z') || ('A' <= c <= 'Z') || ('0' <= c <= '9') || c == '_' || c == '-'
  }

  /** `s.replaceAll(from, to)` for a single-character pattern. */
  function ReplaceChar(s: string, from: char, to: char): (r: string)
    ensures |r| == |s|
    ensures forall i :: 0 <= i < |s| ==> r[i] == (if s[i] == from then to else s[i])
  {
    if s == [] then [] else [if s[0] == from then to else s[0]] + ReplaceChar(s[1..], from, to)
  }

  /** `s.replaceAll(/[^\w\-]/g, "")`: the id characters of `s`, in order. */
  function KeepIdChars(s: string): (r: string)
    ensures |r| <= |s|
    ensures forall i :: 0 <= i < |r| ==> IsIdChar(r[i])
  {
    if s == [] then []
    else (if IsIdChar(s[0]) then [s[0]] else []) + KeepIdChars(s[1..])
  }

  /** The id given to a treemap node with code `code`. */
  function SanitizeId(code: string): (id: string)
    ensures forall i :: 0 <= i < |id| ==> IsIdChar(id[i])
  {
    KeepIdChars(ReplaceChar(ReplaceChar(code, '>', '_'), '|', '_'))
  }

  /** What one character of the code becomes in the id. */
  function SanitizeChar(c: char): string
  {
    if c == '>' || c == '|' then "_" else if IsIdChar(c) then [c] else ""
  }

  /**
   * The id is built character by character: '>' and '|' become '_', other
   * id characters are kept and everything else is deleted.
   */
  lemma {:induction false} SanitizeIdByChar(code: string)
    ensures code == [] ==> SanitizeId(code) == []
    ensures code != [] ==> SanitizeId(code) == SanitizeChar(code[0]) + SanitizeId(code[1..])
  {
    if code != [] {
      var a := ReplaceChar(code, '>', '_');
      var b := ReplaceChar(a, '|', '_');
      assert a[1..] == ReplaceChar(code[1..], '>', '_');
      assert b[1..] == ReplaceChar(a[1..], '|', '_');
    }
  }

  lemma ReplaceCharAppend(a: string, b: string, from: char, to: char)
    ensures ReplaceChar(a + b, from, to) == ReplaceChar(a, from, to) + ReplaceChar(b, from, to)
  {
  }

  lemma {:induction false} KeepIdCharsAppend(a: string, b: string)
    ensures KeepIdChars(a + b) == KeepIdChars(a) + KeepIdChars(b)
  {
    if a == [] {
      assert a + b == b;
    } else {
      assert (a + b)[0] == a[0];
      assert (a + b)[1..] == a[1..] + b;
      KeepIdCharsAppend(a[1..], b);
    }
  }

  /** The id of a concatenation is the concatenation of the ids. */
  lemma SanitizeIdAppend(a: string, b: string)
    ensures SanitizeId(a + b) == SanitizeId(a) + SanitizeId(b)
  {
    ReplaceCharAppend(a, b, '>', '_');
    ReplaceCharAppend(ReplaceChar(a, '>', '_'), ReplaceChar(b, '>', '_'), '|', '_');
    KeepIdCharsAppend(ReplaceChar(ReplaceChar(a, '>', '_'), '|', '_'),
                      ReplaceChar(ReplaceChar(b, '>', '_'), '|', '_'));
  }

  /** A code made only of id characters is its own id. */
  lemma {:induction false} SanitizeIdKeepsClean(code: string)
    requires forall i :: 0 <= i < |code| ==> IsIdChar(code[i])
    ensures SanitizeId(code) == code
  {
    SanitizeIdByChar(code);
    if code != [] {
      SanitizeIdKeepsClean(code[1..]);
      assert [code[0]] + code[1..] == code;
    }
  }

  /** Sanitising an id again changes nothing. */
  lemma SanitizeIdIdempotent(code: string)
    ensures SanitizeId(SanitizeId(code)) == SanitizeId(code)
  {
    SanitizeIdKeepsClean(SanitizeId(code));
  }

  /**
   * A '>' or a '|' anywhere in a code becomes one '_' in the id, so codes
   * that differ only in those separators (or in '_') get the same id.
   */
  lemma SanitizeIdSeparator(a: string, c: char, b: string)
    requires c == '>' || c == '|' || c == '_'
    ensures SanitizeId(a + [c] + b) == SanitizeId(a) + "_" + SanitizeId(b)
  {
    SanitizeIdAppend(a + [c], b);
    SanitizeIdAppend(a, [c]);
    SanitizeIdByChar([c]);
    SanitizeIdByChar([]);
  }
}
