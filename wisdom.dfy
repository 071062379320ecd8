/** The importer that loads `wisdom.json` into the database: each entry's text
    is split at its last " - " into a quote and an author, and the pair is
    inserted; a failed insert is logged and the import goes on. */
module WisdomImport {
  import opened Wrappers

  /** An entry of `wisdom.json`: `{ id, text }`. */
  datatype WisdomEntry = WisdomEntry(id: int, text: string)

  /** The row the importer inserts: `(text, author)`, the author `null` when
      the text names none. */
  datatype Attribution = Attribution(quote: string, author: Option<string>)

  const Delimiter: string := " - "

  /** The characters `String.prototype.trim` removes: the ECMAScript
      WhiteSpace (tab, vertical tab, form feed, space, no-break space, the
      byte-order mark and the Unicode space separators) and LineTerminator
      (line feed, carriage return, line and paragraph separators) sets. */
  predicate IsWhite(c: char) {
    var n := c as int;
    || n == 0x09 || n == 0x0A || n == 0x0B || n == 0x0C || n == 0x0D || n == 0x20
    || n == 0xA0 || n == 0x1680 || (0x2000 <= n <= 0x200A) || n == 0x2028 || n == 0x2029
    || n == 0x202F || n == 0x205F || n == 0x3000 || n == 0xFEFF
  }

  /** Neither begins nor ends with a character that `trim` removes. */
  predicate Trimmed(s: string) {
    s == [] || (!IsWhite(s[0]) && !IsWhite(s[|s| - 1]))
  }

  /** Drops the leading white space: what remains is a suffix of `s`, and only
      white space was dropped. */
  function TrimStart(s: string): (r: string)
    ensures |r| <= |s| && r == s[|s| - |r|..]
    ensures forall i :: 0 <= i < |s| - |r| ==> IsWhite(s[i])
    ensures r != [] ==> !IsWhite(r[0])
    decreases |s|
  {
    if s != [] && IsWhite(s[0]) then TrimStart(s[1..]) else s
  }

  /** Drops the trailing white space: what remains is a prefix of `s`, and only
      white space was dropped. */
  function TrimEnd(s: string): (r: string)
    ensures |r| <= |s| && r == s[..|r|]
    ensures forall i :: |r| <= i < |s| ==> IsWhite(s[i])
    ensures r != [] ==> !IsWhite(r[|r| - 1])
    decreases |s|
  {
    if s != [] && IsWhite(s[|s| - 1]) then TrimEnd(s[..|s| - 1]) else s
  }

  /** `s.trim()`. */
  function Trim(s: string): (r: string)
    ensures |r| <= |s|
    ensures Trimmed(r)
  {
    TrimEnd(TrimStart(s))
  }

  /** Trimming twice is trimming once. */
  lemma TrimIdempotent(s: string)
    ensures Trim(Trim(s)) == Trim(s)
  {
  }

  /** `pat` occurs in `s` starting at position j. */
  predicate OccursAt(s: string, pat: string, j: int) {
    0 <= j && j + |pat| <= |s| && s[j..j + |pat|] == pat
  }

  /** `pat` occurs nowhere in `s`. */
  predicate Absent(s: string, pat: string) {
    forall j :: 0 <= j <= |s| ==> !OccursAt(s, pat, j)
  }

  /** The last occurrence of `pat` starting at or before position i, or -1. */
  function LastIndexAtOrBefore(s: string, pat: string, i: int): (r: int)
    ensures r == -1 || (0 <= r <= i && OccursAt(s, pat, r))
    ensures forall j :: r < j <= i ==> !OccursAt(s, pat, j)
    decreases if i < 0 then 0 else i + 1
  {
    if i < 0 then -1
    else if OccursAt(s, pat, i) then i
    else LastIndexAtOrBefore(s, pat, i - 1)
  }

  /** `s.lastIndexOf(pat)`: the start of the last occurrence, or -1 when there
      is none. */
  function LastIndexOf(s: string, pat: string): (r: int)
    ensures r == -1 || OccursAt(s, pat, r)
    ensures forall j :: r < j ==> !OccursAt(s, pat, j)
  {
    LastIndexAtOrBefore(s, pat, |s| - |pat|)
  }

  /** The per-entry split: at the last " - ", the trimmed text before it is the
      quote and the trimmed text after it the author; with no " - " the whole
      text, untrimmed, is the quote and there is no author. */
  function SplitAttribution(text: string): (a: Attribution)
    ensures a.author.None? <==> Absent(text, Delimiter)
    ensures a.author.None? ==> a.quote == text
    ensures a.author.Some? ==> Trimmed(a.quote) && Trimmed(a.author.value)
    ensures a.author.Some? ==> |a.quote| + |a.author.value| <= |text| - |Delimiter|
  {
    var lastDash := LastIndexOf(text, Delimiter);
    if lastDash != -1 then
      Attribution(Trim(text[..lastDash]), Some(Trim(text[lastDash + 3..])))
    else
      Attribution(text, None)
  }

  /** The split, stated without `lastIndexOf`: whenever the text is some `p`,
      then " - ", then `q`, with no " - " starting anywhere after `p`, the
      quote is `p` trimmed and the author `q` trimmed. Such a `p` and `q`
      exist exactly when the text holds a " - ". */
  lemma SplitAttributionAt(text: string, p: string, q: string)
    requires text == p + Delimiter + q
    requires forall j :: |p| < j ==> !OccursAt(text, Delimiter, j)
    ensures SplitAttribution(text) == Attribution(Trim(p), Some(Trim(q)))
  {
    assert OccursAt(text, Delimiter, |p|) by {
      assert text[|p|..|p| + 3] == Delimiter;
    }
    var k := LastIndexOf(text, Delimiter);
    assert k == |p|;
    assert text[..k] == p;
    assert text[k + 3..] == q;
  }

  /** Splitting at the last " - " takes the text apart without losing anything:
      prefix, " - " and suffix put back together are the text, and the
      suffix holds no " - " of its own. */
  lemma SplitReconstructs(text: string)
    requires !Absent(text, Delimiter)
    ensures var k := LastIndexOf(text, Delimiter);
      && 0 <= k && text == text[..k] + Delimiter + text[k + 3..]
      && Absent(text[k + 3..], Delimiter)
      && SplitAttribution(text) == Attribution(Trim(text[..k]), Some(Trim(text[k + 3..])))
  {
    var k := LastIndexOf(text, Delimiter);
    var suffix := text[k + 3..];
    forall j | 0 <= j <= |suffix| ensures !OccursAt(suffix, Delimiter, j) {
      if OccursAt(suffix, Delimiter, j) {
        assert suffix[j..j + 3] == text[k + 3 + j..k + 3 + j + 3];
        assert OccursAt(text, Delimiter, k + 3 + j);
      }
    }
    assert text == text[..k] + text[k..k + 3] + suffix;
  }

  /** The positions below n whose insert fails. */
  function FailedBelow(failed: set<nat>, n: nat): set<nat>
  {
    set i | i in failed && i < n
  }

  /** The rows that reach the table when the inserts at the positions in
      `failed` throw: every other row, in the order attempted. */
  function Inserted(attempted: seq<Attribution>, failed: set<nat>): (rows: seq<Attribution>)
    ensures |rows| + |FailedBelow(failed, |attempted|)| == |attempted|
    ensures forall k :: 0 <= k < |rows| ==> rows[k] in attempted
    decreases |attempted|
  {
    if attempted == [] then []
    else
      var last := |attempted| - 1;
      assert FailedBelow(failed, last + 1) ==
        FailedBelow(failed, last) + (if last in failed then {last} else {});
      Inserted(attempted[..last], failed) + (if last in failed then [] else [attempted[last]])
  }

  /** With no failed insert, every attempted row is inserted. */
  lemma {:induction false} InsertedAll(attempted: seq<Attribution>, failed: set<nat>)
    requires forall i :: 0 <= i < |attempted| ==> i !in failed
    ensures Inserted(attempted, failed) == attempted
    decreases |attempted|
  {
    if attempted != [] {
      var last := |attempted| - 1;
      InsertedAll(attempted[..last], failed);
      assert attempted[..last] + [attempted[last]] == attempted;
    }
  }

  /** The rows inserted for the first m entries are the start of the rows
      inserted for all of them: a later entry never displaces an earlier one. */
  lemma {:induction false} InsertedPrefix(attempted: seq<Attribution>, failed: set<nat>, m: nat)
    requires m <= |attempted|
    ensures Inserted(attempted[..m], failed) <= Inserted(attempted, failed)
    decreases |attempted|
  {
    if m < |attempted| {
      var last := |attempted| - 1;
      assert attempted[..last][..m] == attempted[..m];
      InsertedPrefix(attempted[..last], failed, m);
    } else {
      assert attempted[..m] == attempted;
    }
  }

  /** A row whose insert succeeds is in the table, right after the rows of the
      entries before it, whatever failed before or after it. */
  lemma InsertedKeepsEntry(attempted: seq<Attribution>, failed: set<nat>, i: nat)
    requires i < |attempted| && i !in failed
    ensures var before := Inserted(attempted[..i], failed);
      |before| < |Inserted(attempted, failed)| && Inserted(attempted, failed)[|before|] == attempted[i]
  {
    var upTo := attempted[..i + 1];
    assert upTo[..i] == attempted[..i];
    assert Inserted(upTo, failed) == Inserted(attempted[..i], failed) + [attempted[i]];
    InsertedPrefix(attempted, failed, i + 1);
  }

  /** `importWisdom`: every entry, in order, is split and offered to the table;
      an insert that throws is logged and skipped, and the loop goes on. */
  method ImportWisdom(wisdoms: seq<WisdomEntry>, failed: set<nat>)
    returns (attempted: seq<Attribution>, inserted: seq<Attribution>)
    ensures |attempted| == |wisdoms|
    ensures forall i :: 0 <= i < |wisdoms| ==> attempted[i] == SplitAttribution(wisdoms[i].text)
    ensures inserted == Inserted(attempted, failed)
  {
    attempted, inserted := [], [];
    for i := 0 to |wisdoms|
      invariant |attempted| == i
      invariant forall j :: 0 <= j < i ==> attempted[j] == SplitAttribution(wisdoms[j].text)
      invariant inserted == Inserted(attempted, failed)
    {
      var row := SplitAttribution(wisdoms[i].text);
      assert (attempted + [row])[..i] == attempted;
      attempted := attempted + [row];
      if i !in failed {
        inserted := inserted + [row];
      }
    }
  }

  /** " - " cannot start at a position that does not hold a space. */
  lemma NotAtNonSpace(t: string, j: nat)
    requires j < |t| && t[j] != ' '
    ensures !OccursAt(t, Delimiter, j)
  {
  }

  /** A text already trimmed is its own trim. */
  lemma TrimOfTrimmed(s: string)
    requires Trimmed(s)
    ensures Trim(s) == s
  {
  }

  /** The two halves of "a - b - c" are already trimmed. */
  lemma TrimsOfSecondOfTwo()
    ensures Trim("a - b") == "a - b" && Trim("c") == "c"
  {
    TrimOfTrimmed("a - b");
    TrimOfTrimmed("c");
  }

  /** The two halves of "x - - y" are already trimmed. */
  lemma TrimsOfOverlapping()
    ensures Trim("x -") == "x -" && Trim("y") == "y"
  {
    TrimOfTrimmed("x -");
    TrimOfTrimmed("y");
  }

  /** With two " - " the split is at the second. */
  lemma SplitAtSecondOfTwo()
    ensures SplitAttribution("a - b - c") == Attribution("a - b", Some("c"))
  {
    var t := "a - b - c";
    assert SplitAttribution(t) == Attribution(Trim("a - b"), Some(Trim("c"))) by {
      assert t == "a - b" + Delimiter + "c";
      assert t[6] == '-';
      NotAtNonSpace(t, 6);
      SplitAttributionAt(t, "a - b", "c");
    }
    TrimsOfSecondOfTwo();
  }

  /** With overlapping delimiters ("x - - y") the split is at the later one,
      so the quote keeps a dash. */
  lemma SplitAtLaterOfOverlapping()
    ensures SplitAttribution("x - - y") == Attribution("x -", Some("y"))
  {
    var t := "x - - y";
    assert SplitAttribution(t) == Attribution(Trim("x -"), Some(Trim("y"))) by {
      assert t == "x -" + Delimiter + "y";
      assert t[4] == '-';
      NotAtNonSpace(t, 4);
      SplitAttributionAt(t, "x -", "y");
    }
    TrimsOfOverlapping();
  }

  /** A text without a dash holds no " - ". */
  lemma NoDashNoDelimiter(t: string)
    requires '-' !in t
    ensures Absent(t, Delimiter)
  {
    forall j | 0 <= j <= |t| ensures !OccursAt(t, Delimiter, j) {
      if j + 3 <= |t| {
        assert t[j..j + 3][1] == t[j + 1];
      }
    }
  }

  /** With no " - " the text is kept as it is, surrounding spaces included. */
  lemma NoSplitKeepsSpaces()
    ensures SplitAttribution(" plain ") == Attribution(" plain ", None)
  {
    NoDashNoDelimiter(" plain ");
  }
}
