/**
 * What parse_hosts_file does, stated without its line-by-line machinery: on the
 * tokens split() finds in a line, and on whole files cut into pieces.
 */
module HostsProperties {
  import opened Text
  import opened HostsParser

  // ---------------------------------------------------------------------------
  // A reference definition of the entries of one line, on its tokens.

  /** One entry per alias, in order, leaving out the aliases that start with '-'. */
  function KeptAliases(first: string, aliases: seq<string>, category: string): seq<Entry>
    decreases |aliases|
  {
    if aliases == [] then []
    else
      (if aliases[0] != [] && aliases[0][0] != '-' then [Entry(first, aliases[0], category)] else [])
        + KeptAliases(first, aliases[1..], category)
  }

  /** A line yields entries exactly when it has at least two tokens and its first
      token is made of hostname characters and is not the refused address; it then
      yields one entry per kept alias. */
  function TokenEntries(tokens: seq<string>, category: string): seq<Entry> {
    if |tokens| >= 2 && IsHostnameShape(tokens[0]) && tokens[0] != NullRoute then
      KeptAliases(tokens[0], tokens[1..], category)
    else
      []
  }

  function LineRef(line: string, category: string): seq<Entry> {
    TokenEntries(Split(line), category)
  }

  // ---------------------------------------------------------------------------
  // The two patterns.

  /** Every text of the address pattern's first group also fits the hostname pattern. */
  lemma {:induction false} DigitGroupsAreHostname(t: string, groups: nat)
    requires groups >= 1 && DigitGroups(t, groups)
    ensures IsHostnameShape(t)
    decreases groups
  {
    var k := DigitRun(t);
    if groups > 1 {
      var tail := t[k + 1..];
      DigitGroupsAreHostname(tail, groups - 1);
      forall i | 0 <= i < |t|
        ensures IsHostnameChar(t[i])
      {
        if i < k {
          assert IsDigit(t[i]);
        } else if i > k {
          assert t[i] == tail[i - k - 1];
        }
      }
    }
  }

  lemma IPv4IsHostname(t: string)
    requires IsIPv4Shape(t)
    ensures IsHostnameShape(t)
  {
    DigitGroupsAreHostname(t, 4);
  }

  /** The refused address has the address form, so it is never retried as a hostname. */
  lemma NullRouteIsIPv4()
    ensures IsIPv4Shape(NullRoute)
  {
    var t := NullRoute;
    DigitPair(t[9..]);
    DigitPair(t[6..]);
    DigitPair(t[3..]);
    DigitPair(t);
    assert t[3..][3..] == t[6..] && t[6..][3..] == t[9..];
  }

  lemma DigitPair(s: string)
    requires |s| >= 2 && IsDigit(s[0]) && IsDigit(s[1]) && (|s| == 2 || !IsDigit(s[2]))
    ensures DigitRun(s) == 2
  {
    assert DigitRun(s[2..]) == 0;
    assert s[1..][1..] == s[2..];
  }

  /** "0.0.0.0", unlike "00.00.00.00", has the address form and is accepted. */
  lemma ZeroAddressAccepted()
    ensures IsIPv4Shape("0.0.0.0") && IsHostnameShape("0.0.0.0") && "0.0.0.0" != NullRoute
  {
    var t := "0.0.0.0";
    assert DigitRun(t[6..]) == 1;
    assert DigitRun(t[4..]) == 1;
    assert DigitRun(t[2..]) == 1;
    assert DigitRun(t) == 1;
    assert t[2..][2..] == t[4..] && t[4..][2..] == t[6..];
    IPv4IsHostname(t);
  }

  /** Both patterns reduce to one condition on the first token. */
  lemma FirstFieldAccepted(t: string)
    ensures ((IsIPv4Shape(t) && t != NullRoute) || (!IsIPv4Shape(t) && IsHostnameShape(t)))
      <==> (IsHostnameShape(t) && t != NullRoute)
  {
    if IsIPv4Shape(t) {
      IPv4IsHostname(t);
    } else {
      NullRouteIsIPv4();
    }
  }

  // ---------------------------------------------------------------------------
  // One line.

  /** The alias loop keeps the aliases that split() produced as they are. */
  lemma {:induction false} EmitTokens(first: string, aliases: seq<string>, category: string)
    requires forall j :: 0 <= j < |aliases| ==> aliases[j] != [] && HasNoSpace(aliases[j])
    ensures Emit(first, aliases, category) == KeptAliases(first, aliases, category)
    decreases |aliases|
  {
    if aliases != [] {
      var n := |aliases| - 1;
      var init, last := aliases[..n], aliases[n];
      EmitTokens(first, init, category);
      StripShape(last);
      KeptSnoc(first, init, last, category);
      assert init + [last] == aliases;
    }
  }

  lemma {:induction false} KeptSnoc(first: string, init: seq<string>, last: string, category: string)
    ensures KeptAliases(first, init + [last], category)
      == KeptAliases(first, init, category) + KeptAliases(first, [last], category)
    decreases |init|
  {
    if init == [] {
      assert [] + [last] == [last];
    } else {
      var h := init[0];
      var kept := if h != [] && h[0] != '-' then [Entry(first, h, category)] else [];
      KeptSnoc(first, init[1..], last, category);
      assert (init + [last])[0] == h;
      assert (init + [last])[1..] == init[1..] + [last];
      Assoc(kept, KeptAliases(first, init[1..], category), KeptAliases(first, [last], category));
    }
  }

  /** The patterns yield entries exactly when the first token fits the hostname
      pattern and is not the refused address. */
  lemma EntryKindMatch(n: string)
    ensures var i := TokenLen(n);
      EntryKind(n).Hosts? <==> i < |n| && IsHostnameShape(n[..i]) && n[..i] != NullRoute
  {
    FirstFieldAccepted(n[..TokenLen(n)]);
  }

  /** The entries then come from the first token and the tokens of the rest. */
  lemma EntryKindFields(n: string)
    ensures var i := TokenLen(n);
      EntryKind(n).Hosts? ==> EntryKind(n) == Hosts(n[..i], Split(Strip(n[i + 1..])))
  {
  }

  /** The patterns on a normalized line: its entries are those of its tokens. */
  lemma EntryKindByTokens(n: string, category: string)
    requires Normalized(n) && n != []
    ensures LineEntries(EntryKind(n), category) == TokenEntries(Split(n), category)
  {
    var i := TokenLen(n);
    SplitNormalized(n);
    EntryKindMatch(n);
    if EntryKind(n).Hosts? {
      EntryKindFields(n);
      HostsByTokens(n[..i], n[i + 1..], Split(n), category);
    } else if i < |n| {
      assert Split(n)[0] == n[..i];
    }
  }

  /** An entry line's aliases, seen as the tokens after the first one. */
  lemma HostsByTokens(first: string, rest: string, tokens: seq<string>, category: string)
    requires tokens == [first] + Split(rest) && Split(rest) != []
    requires IsHostnameShape(first) && first != NullRoute
    ensures Emit(first, Split(Strip(rest)), category) == TokenEntries(tokens, category)
  {
    assert tokens[0] == first && tokens[1..] == Split(rest);
    RestAliases(first, rest, category);
  }

  /** The aliases after the first token are the tokens of the rest of the line, kept
      as they are. */
  lemma RestAliases(first: string, rest: string, category: string)
    ensures Emit(first, Split(Strip(rest)), category) == KeptAliases(first, Split(rest), category)
  {
    SplitStrip(rest);
    SplitTokens(rest);
    EmitTokens(first, Split(rest), category);
  }

  /** Every line yields exactly the entries of the reference definition: blank lines,
      '#' lines, lines of one token and lines that fit neither pattern yield none. */
  lemma LineEntriesByTokens(line: string, category: string)
    ensures LineEntries(Classify(line), category) == LineRef(line, category)
  {
    var s := Strip(line);
    StripShape(line);
    SplitStrip(line);
    if s != [] {
      if s[0] == '#' {
        FirstTokenStart(s);
        assert !IsHostnameChar(Split(s)[0][0]);
      } else {
        var n := Collapse(s);
        CollapseNormalizes(s);
        SplitCollapse(s);
        EntryKindByTokens(n, category);
      }
    }
  }

  /** The category changes on category lines only, and those lines yield no entries. */
  lemma MarkerLine(line: string, category: string)
    ensures Classify(line).Marker? ==> LineEntries(Classify(line), category) == []
    ensures !Classify(line).Marker? ==> NextCategory(Classify(line), category) == category
    ensures Classify(line).Marker? <==>
      var s := Strip(line);
      s != [] && s[0] == '#' && MarkerText(s) != [] && !LooksLikeCommentedIp(MarkerText(s))
  {
  }

  // ---------------------------------------------------------------------------
  // Whole files.

  /** Classifying the lines of two pieces of a file. */
  lemma KindsAppend(a: seq<string>, b: seq<string>)
    ensures Kinds(a + b) == Kinds(a) + Kinds(b)
  {
  }

  /** Reading one more line at the end of a piece. */
  lemma SnocLast(init: seq<LineKind>, x: LineKind, start: string)
    ensures EntriesFrom(init + [x], start) == EntriesFrom(init, start) + LineEntries(x, CategoryAfter(init, start))
    ensures CategoryAfter(init + [x], start) == NextCategory(x, CategoryAfter(init, start))
  {
    var k := init + [x];
    assert k[..|k| - 1] == init;
  }

  /** One more line that follows two pieces. */
  lemma TwoPiecesSnoc(a: seq<LineKind>, init: seq<LineKind>, x: LineKind, start: string)
    requires EntriesFrom(a + init, start) == EntriesFrom(a, start) + EntriesFrom(init, CategoryAfter(a, start))
    requires CategoryAfter(a + init, start) == CategoryAfter(init, CategoryAfter(a, start))
    ensures EntriesFrom(a + (init + [x]), start)
      == EntriesFrom(a, start) + EntriesFrom(init + [x], CategoryAfter(a, start))
    ensures CategoryAfter(a + (init + [x]), start) == CategoryAfter(init + [x], CategoryAfter(a, start))
  {
    var c := CategoryAfter(a, start);
    assert a + (init + [x]) == (a + init) + [x];
    SnocLast(a + init, x, start);
    SnocLast(init, x, c);
    Assoc(EntriesFrom(a, start), EntriesFrom(init, c), LineEntries(x, CategoryAfter(init, c)));
  }

  /** Reading a file in two pieces: the second piece starts from the category the
      first one leaves in effect. */
  lemma {:induction false} EntriesAppend(a: seq<LineKind>, b: seq<LineKind>, start: string)
    ensures EntriesFrom(a + b, start) == EntriesFrom(a, start) + EntriesFrom(b, CategoryAfter(a, start))
    ensures CategoryAfter(a + b, start) == CategoryAfter(b, CategoryAfter(a, start))
    decreases |b|
  {
    if b == [] {
      assert a + b == a;
    } else {
      var init, x := b[..|b| - 1], b[|b| - 1];
      assert b == init + [x];
      EntriesAppend(a, init, start);
      TwoPiecesSnoc(a, init, x, start);
    }
  }

  predicate NoMarkers(kinds: seq<LineKind>) {
    forall i :: 0 <= i < |kinds| ==> !kinds[i].Marker?
  }

  /** Lines without category lines keep the category in effect, and every entry
      they yield carries it. */
  lemma {:induction false} CategoryScope(kinds: seq<LineKind>, category: string)
    requires NoMarkers(kinds)
    ensures CategoryAfter(kinds, category) == category
    ensures forall e :: e in EntriesFrom(kinds, category) ==> e.category == category
    decreases |kinds|
  {
    if kinds != [] {
      var n := |kinds| - 1;
      assert NoMarkers(kinds[..n]) by {
        forall i | 0 <= i < n
          ensures !kinds[..n][i].Marker?
        {
          assert kinds[..n][i] == kinds[i];
        }
      }
      CategoryScope(kinds[..n], category);
      LineCategory(kinds[n], category);
    }
  }

  /** Every entry of a line carries the category it was read under. */
  lemma LineCategory(kind: LineKind, category: string)
    ensures forall e :: e in LineEntries(kind, category) ==> e.category == category
  {
    if kind.Hosts? {
      EmitCategory(kind.first, kind.aliases, category);
    }
  }

  lemma {:induction false} EmitCategory(first: string, aliases: seq<string>, category: string)
    ensures forall e :: e in Emit(first, aliases, category) ==> e.ip == first && e.category == category
    decreases |aliases|
  {
    if aliases != [] {
      EmitCategory(first, aliases[..|aliases| - 1], category);
    }
  }

  /** A category line yields nothing and sets the category. */
  lemma MarkerStep(before: seq<LineKind>, name: string, start: string)
    ensures EntriesFrom(before + [Marker(name)], start) == EntriesFrom(before, start)
    ensures CategoryAfter(before + [Marker(name)], start) == name
  {
    var k := before + [Marker(name)];
    assert k[..|k| - 1] == before;
    assert k[|k| - 1] == Marker(name);
    assert EntriesFrom(k, start) == EntriesFrom(before, start) + [];
  }

  /** Lines after a category line, up to the next one, are under the name it gives,
      whatever came before it. */
  lemma MarkerScope(before: seq<LineKind>, name: string, after: seq<LineKind>)
    requires NoMarkers(after)
    ensures EntriesFrom(before + [Marker(name)] + after, DefaultCategory)
      == EntriesFrom(before, DefaultCategory) + EntriesFrom(after, name)
    ensures forall e :: e in EntriesFrom(after, name) ==> e.category == name
  {
    MarkerStep(before, name, DefaultCategory);
    EntriesAppend(before + [Marker(name)], after, DefaultCategory);
    CategoryScope(after, name);
  }

  /** With no category line at all, every entry is under "SEM CATEGORIA". */
  lemma DefaultScope(lines: seq<string>)
    requires NoMarkers(Kinds(lines))
    ensures forall e :: e in Parse(lines) ==> e.category == DefaultCategory
  {
    CategoryScope(Kinds(lines), DefaultCategory);
  }

  /** What every entry looks like: its address field fits the hostname pattern and is
      not the refused address, and its domain is a non-empty token that does not
      start with '-'. */
  predicate WellFormed(e: Entry) {
    && IsHostnameShape(e.ip) && e.ip != NullRoute
    && e.domain != [] && HasNoSpace(e.domain) && e.domain[0] != '-'
  }

  lemma {:induction false} KeptWellFormed(first: string, aliases: seq<string>, category: string)
    requires IsHostnameShape(first) && first != NullRoute
    requires forall j :: 0 <= j < |aliases| ==> aliases[j] != [] && HasNoSpace(aliases[j])
    ensures forall e :: e in KeptAliases(first, aliases, category) ==> WellFormed(e)
    decreases |aliases|
  {
    if aliases != [] {
      KeptWellFormed(first, aliases[1..], category);
    }
  }

  lemma LineWellFormed(line: string, category: string)
    ensures forall e :: e in LineEntries(Classify(line), category) ==> WellFormed(e)
  {
    LineEntriesByTokens(line, category);
    var tokens := Split(line);
    if |tokens| >= 2 && IsHostnameShape(tokens[0]) && tokens[0] != NullRoute {
      SplitTokens(line);
      KeptWellFormed(tokens[0], tokens[1..], category);
    }
  }

  lemma {:induction false} EntriesWellFormed(lines: seq<string>, start: string)
    ensures forall e :: e in EntriesFrom(Kinds(lines), start) ==> WellFormed(e)
    decreases |lines|
  {
    if lines != [] {
      var n := |lines| - 1;
      var kinds := Kinds(lines);
      EntriesWellFormed(lines[..n], start);
      assert kinds[..n] == Kinds(lines[..n]);
      LineWellFormed(lines[n], CategoryAfter(kinds[..n], start));
    }
  }

  /** Every entry parse_hosts_file returns is well formed. */
  lemma ParsedWellFormed(lines: seq<string>)
    ensures forall e :: e in Parse(lines) ==> WellFormed(e)
  {
    EntriesWellFormed(lines, DefaultCategory);
  }
}
