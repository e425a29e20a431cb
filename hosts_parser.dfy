/**
 * parse_hosts_file: a line-by-line reader of a hosts-style file whose only
 * state is the category in effect. Comment lines whose text is not a
 * commented-out address name the category of the entries that follow; every
 * other line of the form "<address or hostname> <alias> <alias> ..." yields one
 * (first field, alias, category) entry per alias that does not start with '-'.
 */
module HostsParser {
  import opened Text

  datatype Entry = Entry(ip: string, domain: string, category: string)

  /** The category of entries that precede every category line. */
  const DefaultCategory: string := "SEM CATEGORIA"

  /** The one address the parser refuses; "0.0.0.0" is not refused. */
  const NullRoute: string := "00.00.00.00"

  /** How the parser treats one line. */
  datatype LineKind =
    | Marker(name: string)                      // '#' line that names a category
    | Comment                                   // any other '#' line
    | Blank
    | NullRouteLine                             // address form, with the refused address
    | Hosts(first: string, aliases: seq<string>)
    | Unmatched                                 // fits neither pattern

  // ---------------------------------------------------------------------------
  // The two regular expressions, as character classes.

  predicate IsDigit(c: char) {
    '0' <= c <= '9'
  }

  /** Length of the longest prefix of s made of digits. */
  function DigitRun(s: string): (k: nat)
    ensures k <= |s|
    ensures forall i :: 0 <= i < k ==> IsDigit(s[i])
    ensures k < |s| ==> !IsDigit(s[k])
  {
    if s == [] || !IsDigit(s[0]) then 0 else 1 + DigitRun(s[1..])
  }

  /** t, as a whole, matches \d{1,3} followed by groups - 1 repetitions of \.\d{1,3}. */
  predicate DigitGroups(t: string, groups: nat)
    requires groups >= 1
    decreases groups
  {
    var k := DigitRun(t);
    && 1 <= k <= 3
    && if groups == 1 then k == |t|
       else k < |t| && t[k] == '.' && DigitGroups(t[k + 1..], groups - 1)
  }

  /** Group 1 of the address pattern: \d{1,3}\.\d{1,3}\.\d{1,3}\.\d{1,3} */
  predicate IsIPv4Shape(t: string) {
    DigitGroups(t, 4)
  }

  predicate IsHostnameChar(c: char) {
    ('a' <= c <= 'z') || ('A' <= c <= 'Z') || IsDigit(c) || c == '-' || c == '.'
  }

  /** Group 1 of the hostname pattern: [a-zA-Z0-9\-\.]+ */
  predicate IsHostnameShape(t: string) {
    t != [] && forall i :: 0 <= i < |t| ==> IsHostnameChar(t[i])
  }

  /** The two groups of a successful match. */
  datatype Groups = Groups(first: string, rest: string)

  /** `^(G)\s+(.+)$` for a class G without whitespace, on a line the parser has
      already stripped and collapsed (see MatchOnNormalized): group 1 runs up to
      the first whitespace character, `\s+` is that one character and group 2
      is the rest of the line. */
  function MatchFields(n: string, ipv4: bool): (r: Option<Groups>)
    ensures r.Some? <==> TokenLen(n) < |n| && (if ipv4 then IsIPv4Shape(n[..TokenLen(n)]) else IsHostnameShape(n[..TokenLen(n)]))
    ensures r.Some? ==>
      && |r.value.first| < |n|
      && n == r.value.first + [n[|r.value.first|]] + r.value.rest
      && r.value.first != [] && HasNoSpace(r.value.first) && IsSpace(n[|r.value.first|])
      && (if ipv4 then IsIPv4Shape(r.value.first) else IsHostnameShape(r.value.first))
  {
    var i := TokenLen(n);
    if i < |n| && (if ipv4 then IsIPv4Shape(n[..i]) else IsHostnameShape(n[..i])) then
      Some(Groups(n[..i], n[i + 1..]))
    else
      None
  }

  /** On a stripped, collapsed line the groups are the line's first token and
      the non-empty text after the single space that follows it. */
  lemma MatchOnNormalized(n: string, ipv4: bool)
    requires Normalized(n)
    ensures var r := MatchFields(n, ipv4);
      r.Some? ==>
        && n == r.value.first + " " + r.value.rest
        && r.value.first != [] && HasNoSpace(r.value.first)
        && r.value.rest != [] && !IsSpace(r.value.rest[0])
  {
    var i := TokenLen(n);
    if MatchFields(n, ipv4).Some? {
      assert IsSpace(n[i]);
      assert n[i] == ' ';
      assert i != |n| - 1;
      assert !IsSpace(n[i + 1]);
      assert n == n[..i] + " " + n[i + 1..];
    }
  }

  // ---------------------------------------------------------------------------
  // One line.

  /** A '#' text that starts like a commented-out address is not a category. */
  predicate LooksLikeCommentedIp(text: string) {
    StartsWith(text, "10.") || StartsWith(text, "5.") || StartsWith(text, "22.")
  }

  /** The text of a '#' line: every leading '#' removed, then stripped. */
  function MarkerText(s: string): string {
    Strip(TrimHashes(s))
  }

  /** A '#' line names a category unless its text is empty or starts like a commented-out address. */
  function CommentKind(s: string): LineKind {
    var text := MarkerText(s);
    if text != [] && !LooksLikeCommentedIp(text) then Marker(Upper(text)) else Comment
  }

  /** The two patterns tried in order on a normalized line; the refused address is not
      tried against the hostname pattern. */
  function EntryKind(n: string): LineKind {
    match MatchFields(n, true)
    case Some(g) =>
      if g.first == NullRoute then NullRouteLine else Hosts(g.first, Split(Strip(g.rest)))
    case None =>
      match MatchFields(n, false)
      case Some(g) => Hosts(g.first, Split(Strip(g.rest)))
      case None => Unmatched
  }

  function Classify(line: string): LineKind {
    var s := Strip(line);
    if s != [] && s[0] == '#' then
      CommentKind(s)
    else if s == [] then
      Blank
    else
      EntryKind(Collapse(s))
  }

  /** An alias is kept when it is non-empty and does not start with '-'. */
  predicate IsAlias(d: string) {
    d != [] && d[0] != '-'
  }

  /** The inner loop over the aliases of one line. */
  function Emit(first: string, aliases: seq<string>, category: string): seq<Entry> {
    if aliases == [] then []
    else
      var d := Strip(aliases[|aliases| - 1]);
      Emit(first, aliases[..|aliases| - 1], category)
        + (if IsAlias(d) then [Entry(first, d, category)] else [])
  }

  function LineEntries(kind: LineKind, category: string): seq<Entry> {
    if kind.Hosts? then Emit(kind.first, kind.aliases, category) else []
  }

  function NextCategory(kind: LineKind, category: string): string {
    if kind.Marker? then kind.name else category
  }

  // ---------------------------------------------------------------------------
  // The whole file.

  /** How each line of a file is treated; a line's treatment depends on that line alone. */
  function Kinds(lines: seq<string>): seq<LineKind> {
    seq(|lines|, i requires 0 <= i < |lines| => Classify(lines[i]))
  }

  /** The category in effect once every line of kinds `kinds` has been read, starting from `start`. */
  function CategoryAfter(kinds: seq<LineKind>, start: string): string {
    if kinds == [] then start
    else
      var n := |kinds| - 1;
      NextCategory(kinds[n], CategoryAfter(kinds[..n], start))
  }

  /** The entries of lines of kinds `kinds`, read from the category `start`: each line's
      entries, under the category in effect before it, appended in file order. */
  function EntriesFrom(kinds: seq<LineKind>, start: string): seq<Entry> {
    if kinds == [] then []
    else
      var n := |kinds| - 1;
      EntriesFrom(kinds[..n], start) + LineEntries(kinds[n], CategoryAfter(kinds[..n], start))
  }

  /** parse_hosts_file on the lines of a file. */
  function Parse(lines: seq<string>): seq<Entry> {
    EntriesFrom(Kinds(lines), DefaultCategory)
  }

  /** Reading one more line extends the entries and updates the category. */
  lemma ParseStep(kinds: seq<LineKind>, i: nat, start: string)
    requires i < |kinds|
    ensures EntriesFrom(kinds[..i + 1], start) == EntriesFrom(kinds[..i], start) + LineEntries(kinds[i], CategoryAfter(kinds[..i], start))
    ensures CategoryAfter(kinds[..i + 1], start) == NextCategory(kinds[i], CategoryAfter(kinds[..i], start))
  {
    assert kinds[..i + 1][..i] == kinds[..i];
  }

  /** Handling one more alias extends the line's entries by at most that alias. */
  lemma EmitStep(first: string, aliases: seq<string>, category: string, j: nat)
    requires j < |aliases|
    ensures Emit(first, aliases[..j + 1], category)
      == Emit(first, aliases[..j], category)
         + (if IsAlias(Strip(aliases[j])) then [Entry(first, Strip(aliases[j]), category)] else [])
  {
    assert aliases[..j + 1][..j] == aliases[..j];
  }

  /** The inner loop of parse_hosts_file: the entries of one line's aliases, appended. */
  method AppendAliases(entries: seq<Entry>, first: string, aliases: seq<string>, category: string)
    returns (out: seq<Entry>)
    ensures out == entries + Emit(first, aliases, category)
  {
    out := entries;
    for j := 0 to |aliases|
      invariant out == entries + Emit(first, aliases[..j], category)
    {
      EmitStep(first, aliases, category, j);
      ghost var done := Emit(first, aliases[..j], category);
      var domain := Strip(aliases[j]);
      if IsAlias(domain) {
        out := out + [Entry(first, domain, category)];
        assert out == entries + (done + [Entry(first, domain, category)]);
      } else {
        assert done + [] == done;
      }
    }
    assert aliases[..|aliases|] == aliases;
  }

  method ParseHostsFile(lines: seq<string>) returns (entries: seq<Entry>)
    ensures entries == Parse(lines)
  {
    ghost var kinds := Kinds(lines);
    entries := [];
    var category := DefaultCategory;
    for i := 0 to |lines|
      invariant entries == EntriesFrom(kinds[..i], DefaultCategory)
      invariant category == CategoryAfter(kinds[..i], DefaultCategory)
    {
      var kind := Classify(lines[i]);
      assert kind == kinds[i];
      ParseStep(kinds, i, DefaultCategory);
      if kind.Marker? {
        category := kind.name;
      } else if kind.Hosts? {
        entries := AppendAliases(entries, kind.first, kind.aliases, category);
      }
    }
    assert kinds[..|lines|] == kinds;
  }
}
