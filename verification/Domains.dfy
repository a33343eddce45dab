/** User-entered and downloaded domain lists. */
module Domains {
  import opened Octets

  /** The parts of Python's string library that depend on Unicode tables. */
  datatype Chars = Chars(
    isSpace: char -> bool, isAlnum: char -> bool, isAlpha: char -> bool,
    lower: string -> string)

  /** A configuration value: text, a list with possibly non-text entries, or something else. */
  datatype Entry = Text(text: string) | NotText
  datatype Value = Single(entry: Entry) | Many(entries: seq<Entry>)

  // ---------------------------------------------------------------- splitting into words

  function Replace(s: string, from: char, to: char): (r: string)
    ensures |r| == |s|
  {
    seq(|s|, i requires 0 <= i < |s| => if s[i] == from then to else s[i])
  }

  /** Length of the word at the start of s. */
  function WordLength(u: Chars, s: string): (n: nat)
    ensures n <= |s|
    ensures forall i :: 0 <= i < n ==> !u.isSpace(s[i])
    ensures n < |s| ==> u.isSpace(s[n])
  {
    if s == [] || u.isSpace(s[0]) then 0 else 1 + WordLength(u, s[1..])
  }

  /** `s.split()`: the maximal runs without white space. */
  function Words(u: Chars, s: string): seq<string>
    decreases |s|
  {
    if s == [] then []
    else if u.isSpace(s[0]) then Words(u, s[1..])
    else
      var n := WordLength(u, s);
      [s[..n]] + Words(u, s[n..])
  }

  function SplitEntry(u: Chars, s: string): seq<string> {
    Words(u, Replace(Replace(s, ',', ' '), ';', ' '))
  }

  function SplitEntries(u: Chars, entries: seq<Entry>): seq<string> {
    if entries == [] then []
    else
      var last := entries[|entries| - 1];
      SplitEntries(u, entries[..|entries| - 1]) + if last.Text? then SplitEntry(u, last.text) else []
  }

  /** Entry by entry, skipping what is not text. */
  lemma {:induction false} EntryByEntry(u: Chars, a: seq<Entry>, b: seq<Entry>, text: string)
    ensures SplitEntries(u, a + b) == SplitEntries(u, a) + SplitEntries(u, b)
    ensures SplitEntries(u, [Text(text)]) == SplitEntry(u, text) && SplitEntries(u, [NotText]) == []
  {
    hide SplitEntry;
    assert [Text(text)][..0] == [] && [NotText][..0] == [] && SplitEntries(u, []) == [];
    assert [] + SplitEntry(u, text) == SplitEntry(u, text);
    if b == [] {
      assert a + b == a;
    } else {
      var n := |b| - 1;
      EntryByEntry(u, a, b[..n], text);
      assert (a + b)[..|a| + n] == a + b[..n] && (a + b)[|a| + n] == b[n];
      Associative(SplitEntries(u, a), SplitEntries(u, b[..n]), if b[n].Text? then SplitEntry(u, b[n].text) else []);
    }
  }

  function Strip(u: Chars, s: string): string
    decreases |s|
  {
    if s == [] then []
    else if u.isSpace(s[0]) then Strip(u, s[1..])
    else if u.isSpace(s[|s| - 1]) then Strip(u, s[..|s| - 1])
    else s
  }

  /** White space at both ends goes, and nothing else. */
  lemma {:induction false} StripTrims(u: Chars, pre: string, core: string, post: string)
    requires (forall i :: 0 <= i < |pre| ==> u.isSpace(pre[i])) && (forall i :: 0 <= i < |post| ==> u.isSpace(post[i]))
    requires core != [] ==> !u.isSpace(core[0]) && !u.isSpace(core[|core| - 1])
    ensures Strip(u, pre + core + post) == core
    decreases |pre| + |post|
  {
    if pre != [] {
      FirstOff(pre, core + post);
      Associative(pre, core, post);
      Associative(pre[1..], core, post);
      StripTrims(u, pre[1..], core, post);
    } else if core == [] {
      assert [] + [] + post == post;
      if post != [] {
        StripTrims(u, [], [], post[1..]);
        assert [] + [] + post[1..] == post[1..];
      }
    } else {
      assert [] + core == core;
      if post != [] {
        LastOff(core, post);
        StripTrims(u, [], core, post[..|post| - 1]);
      } else {
        assert core + [] == core;
      }
    }
  }

  lemma FirstOff(a: string, b: string)
    requires a != []
    ensures (a + b)[0] == a[0] && (a + b)[1..] == a[1..] + b
  {
  }

  lemma LastOff(a: string, b: string)
    requires a != [] && b != []
    ensures (a + b)[0] == a[0] && (a + b)[|a + b| - 1] == b[|b| - 1]
    ensures (a + b)[..|a + b| - 1] == a + b[..|b| - 1]
  {
  }

  // ---------------------------------------------------------------- what separates words

  lemma {:induction false} WordsAround(u: Chars, a: string, c: char, b: string)
    requires u.isSpace(c)
    ensures Words(u, a + [c] + b) == Words(u, a) + Words(u, b)
    decreases |a|
  {
    var s := a + [c] + b;
    Associative(a, [c], b);
    if a == [] {
      assert s == [c] + b && s[1..] == b;
    } else if u.isSpace(a[0]) {
      FirstOff(a, [c] + b);
      Associative(a[1..], [c], b);
      WordsAround(u, a[1..], c, b);
    } else {
      var n := WordLength(u, a);
      WordBeforeGap(u, a, c, b);
      WordsAround(u, a[n..], c, b);
      Associative([a[..n]], Words(u, a[n..]), Words(u, b));
    }
  }

  lemma WordBeforeGap(u: Chars, a: string, c: char, b: string)
    requires u.isSpace(c) && a != [] && !u.isSpace(a[0])
    ensures var s, n := a + [c] + b, WordLength(u, a);
            && 0 < n && s != [] && !u.isSpace(s[0]) && WordLength(u, s) == n
            && s[..n] == a[..n] && s[n..] == a[n..] + [c] + b
  {
    var s, n := a + [c] + b, WordLength(u, a);
    assert forall i :: 0 <= i < |a| ==> s[i] == a[i];
    assert s[|a|] == c;
  }

  /** Entries are separated by commas, semicolons and white space, and by nothing else. */
  lemma Separators(u: Chars, a: string, c: char, b: string)
    requires u.isSpace(' ')
    ensures c == ',' || c == ';' || u.isSpace(c) ==>
              SplitEntry(u, a + [c] + b) == SplitEntry(u, a) + SplitEntry(u, b)
    ensures SplitEntry(u, "") == []
    ensures forall w :: IsWord(u, w) ==> SplitEntry(u, w) == [w]
  {
    hide Words;
    ReplaceConcat(a + [c], b, ',', ' ');
    ReplaceConcat(a, [c], ',', ' ');
    var a', c', b' := Replace(a, ',', ' '), Replace([c], ',', ' '), Replace(b, ',', ' ');
    ReplaceConcat(a' + c', b', ';', ' ');
    ReplaceConcat(a', c', ';', ' ');
    var middle := Replace(c', ';', ' ');
    assert middle == [middle[0]];
    if c == ',' || c == ';' || u.isSpace(c) {
      WordsAround(u, Replace(a', ';', ' '), middle[0], Replace(b', ';', ' '));
    }
    assert Words(u, "") == [] by {
      NoWords(u);
    }
    forall w | IsWord(u, w)
      ensures SplitEntry(u, w) == [w]
    {
      assert Replace(Replace(w, ',', ' '), ';', ' ') == w;
      WordThenGap(u, w, "");
    }
  }

  lemma NoWords(u: Chars)
    ensures Words(u, "") == []
  {
  }

  /** A word: not empty, no white space, no separator. */
  predicate IsWord(u: Chars, w: string) {
    w != [] && forall i :: 0 <= i < |w| ==> !u.isSpace(w[i]) && w[i] != ',' && w[i] != ';'
  }

  lemma {:induction false} WordsAreWords(u: Chars, s: string)
    requires ',' !in s && ';' !in s
    ensures forall w :: w in Words(u, s) ==> IsWord(u, w)
    decreases |s|
  {
    if s != [] {
      if u.isSpace(s[0]) {
        WordsAreWords(u, s[1..]);
      } else {
        WordsAreWords(u, s[WordLength(u, s)..]);
      }
    }
  }

  lemma SplitEntryWords(u: Chars, s: string)
    ensures forall w :: w in SplitEntry(u, s) ==> IsWord(u, w)
  {
    WordsAreWords(u, Replace(Replace(s, ',', ' '), ';', ' '));
  }

  lemma {:induction false} SplitEntriesWords(u: Chars, entries: seq<Entry>)
    ensures forall w :: w in SplitEntries(u, entries) ==> IsWord(u, w)
  {
    if entries != [] {
      var last := entries[|entries| - 1];
      SplitEntriesWords(u, entries[..|entries| - 1]);
      if last.Text? {
        SplitEntryWords(u, last.text);
      }
    }
  }

  // ---------------------------------------------------------------- removing duplicates

  /** Keeps an item when no earlier one has the same key. */
  function FirstOnly(key: string -> string, items: seq<string>): seq<string> {
    if items == [] then []
    else
      var n := |items| - 1;
      FirstOnly(key, items[..n]) + if key(items[n]) in Keys(key, items[..n]) then [] else [items[n]]
  }

  function Keys(key: string -> string, items: seq<string>): set<string> {
    set i | 0 <= i < |items| :: key(items[i])
  }

  predicate DistinctKeys(key: string -> string, s: seq<string>) {
    forall i, j :: 0 <= i < j < |s| ==> key(s[i]) != key(s[j])
  }

  lemma KeysSnoc(key: string -> string, items: seq<string>, x: string)
    ensures Keys(key, items + [x]) == Keys(key, items) + {key(x)}
  {
    var all := items + [x];
    forall k | k in Keys(key, items)
      ensures k in Keys(key, all)
    {
      var i :| 0 <= i < |items| && key(items[i]) == k;
      assert all[i] == items[i];
    }
    assert all[|items|] == x;
  }

  /** No two kept items share a key, no key is lost, and only items are kept. */
  lemma {:induction false} FirstOnlyLaws(key: string -> string, items: seq<string>)
    ensures DistinctKeys(key, FirstOnly(key, items))
    ensures Keys(key, FirstOnly(key, items)) == Keys(key, items)
    ensures forall x :: x in FirstOnly(key, items) ==> x in items
  {
    if items != [] {
      var n := |items| - 1;
      FirstOnlyLaws(key, items[..n]);
      assert items == items[..n] + [items[n]];
      KeysSnoc(key, items[..n], items[n]);
      var kept := FirstOnly(key, items[..n]);
      KeysSnoc(key, kept, items[n]);
      assert kept + [] == kept;
      forall i | 0 <= i < |kept|
        ensures key(kept[i]) in Keys(key, items[..n])
      {
        assert key(kept[i]) in Keys(key, kept);
      }
    }
  }

  /** Kept items appear in the order of the first occurrences of their keys: `at` gives
      the position of each. */
  predicate FirstAt(key: string -> string, items: seq<string>, kept: seq<string>, at: seq<nat>) {
    && |at| == |kept|
    && (forall i, j :: 0 <= i < j < |at| ==> at[i] < at[j])
    && (forall i :: 0 <= i < |at| ==> at[i] < |items| && items[at[i]] == kept[i])
    && (forall i, j :: 0 <= i < |at| && 0 <= j < at[i] ==> key(items[j]) != key(kept[i]))
  }

  ghost predicate InOrder(key: string -> string, items: seq<string>, kept: seq<string>) {
    exists at: seq<nat> :: FirstAt(key, items, kept, at)
  }

  lemma FirstAtMore(key: string -> string, items: seq<string>, kept: seq<string>, at: seq<nat>, x: string)
    requires FirstAt(key, items, kept, at)
    ensures FirstAt(key, items + [x], kept, at)
    ensures key(x) !in Keys(key, items) ==> FirstAt(key, items + [x], kept + [x], at + [|items|])
  {
    var all := items + [x];
    assert forall j :: 0 <= j < |items| ==> all[j] == items[j] && key(items[j]) in Keys(key, items);
  }

  lemma {:induction false} FirstOnlyInOrder(key: string -> string, items: seq<string>)
    ensures InOrder(key, items, FirstOnly(key, items))
  {
    if items == [] {
      assert FirstAt(key, [], [], []);
    } else {
      hide FirstAt, Keys;
      var n := |items| - 1;
      FirstOnlyInOrder(key, items[..n]);
      var kept := FirstOnly(key, items[..n]);
      var at: seq<nat> :| FirstAt(key, items[..n], kept, at);
      FirstAtMore(key, items[..n], kept, at, items[n]);
      assert items == items[..n] + [items[n]] && kept + [] == kept;
    }
  }

  lemma {:induction false} FirstOnlyFixed(key: string -> string, items: seq<string>)
    requires DistinctKeys(key, items)
    ensures FirstOnly(key, items) == items
  {
    if items != [] {
      var n := |items| - 1;
      FirstOnlyFixed(key, items[..n]);
      assert items == items[..n] + [items[n]];
    }
  }

  // ---------------------------------------------------------------- coerce_domain_list

  function Coerced(u: Chars, value: Value): seq<string> {
    match value
    case Single(Text(s)) => FirstOnly(u.lower, SplitEntry(u, s))
    case Single(NotText) => []
    case Many(entries) => FirstOnly(u.lower, SplitEntries(u, entries))
  }

  method CoerceDomainList(u: Chars, value: Value) returns (result: seq<string>)
    ensures result == Coerced(u, value)
  {
    var items: seq<string>;
    match value {
      case Single(NotText) =>
        return [];
      case Single(Text(s)) =>
        items := SplitEntry(u, s);
        SplitEntryWords(u, s);
      case Many(entries) =>
        items := [];
        assert entries[..0] == [];
        for i := 0 to |entries|
          invariant items == SplitEntries(u, entries[..i])
        {
          assert entries[..i + 1][..i] == entries[..i];
          if entries[i].Text? {
            items := items + SplitEntry(u, entries[i].text);
          }
        }
        assert entries[..|entries|] == entries;
        SplitEntriesWords(u, entries);
    }
    assert forall w :: w in items ==> IsWord(u, w);
    var seen: set<string> := {};
    result := [];
    assert items[..0] == [];
    for i := 0 to |items|
      invariant seen == Keys(u.lower, items[..i])
      invariant result == FirstOnly(u.lower, items[..i])
    {
      assert items[i] in items;
      StripWord(u, items[i]);
      assert items[..i + 1] == items[..i] + [items[i]];
      KeysSnoc(u.lower, items[..i], items[i]);
      var item := Strip(u, items[i]);
      if item == [] {
        continue;
      }
      var key := u.lower(item);
      if key in seen {
        continue;
      }
      seen := seen + {key};
      result := result + [item];
    }
    assert items[..|items|] == items;
  }

  lemma StripWord(u: Chars, w: string)
    requires IsWord(u, w)
    ensures Strip(u, w) == w
  {
  }

  function Join(sep: string, parts: seq<string>): string {
    if parts == [] then []
    else if |parts| == 1 then parts[0]
    else parts[0] + sep + Join(sep, parts[1..])
  }

  lemma WordThenGap(u: Chars, w: string, rest: string)
    requires IsWord(u, w) && u.isSpace(' ')
    ensures Words(u, w + "  " + rest) == [w] + Words(u, rest)
    ensures Words(u, w) == [w]
  {
    var s := w + "  " + rest;
    var n := WordLength(u, s);
    assert forall i :: 0 <= i < |w| ==> s[i] == w[i];
    assert s[|w|] == ' ' && n == |w|;
    assert s[..n] == w && s[n..] == "  " + rest;
    assert s[n..][1..] == " " + rest && s[n..][1..][1..] == rest;
    assert Words(u, s[n..]) == Words(u, " " + rest) == Words(u, rest);
    assert WordLength(u, w) == |w| && w[|w|..] == [];
    assert w[..|w|] == w && Words(u, "") == [];
    assert Words(u, w) == [w[..|w|]] + Words(u, w[|w|..]) == [w];
  }

  lemma ReplaceConcat(s: string, t: string, from: char, to: char)
    ensures Replace(s + t, from, to) == Replace(s, from, to) + Replace(t, from, to)
  {
  }

  lemma {:induction false} JoinedWordsSplit(u: Chars, parts: seq<string>)
    requires u.isSpace(' ') && forall w :: w in parts ==> IsWord(u, w)
    ensures SplitEntry(u, Join(", ", parts)) == parts
  {
    if parts != [] {
      var w := parts[0];
      assert w in parts;
      assert Replace(Replace(w, ',', ' '), ';', ' ') == w;
      if |parts| == 1 {
        WordThenGap(u, w, "");
      } else {
        var rest := Join(", ", parts[1..]);
        JoinedWordsSplit(u, parts[1..]);
        ReplaceConcat(w + ", ", rest, ',', ' ');
        ReplaceConcat(w, ", ", ',', ' ');
        assert Replace(", ", ',', ' ') == "  ";
        assert Replace(w, ',', ' ') == w;
        var once := Replace(rest, ',', ' ');
        ReplaceConcat(w + "  ", once, ';', ' ');
        assert Replace(w + "  ", ';', ' ') == w + "  ";
        assert w + ", " + rest == (w + ", ") + rest == Join(", ", parts);
        WordThenGap(u, w, Replace(once, ';', ' '));
        assert SplitEntry(u, Join(", ", parts)) == Words(u, w + "  " + Replace(once, ';', ' '));
        assert parts == [w] + parts[1..];
      }
    }
  }

  /** The result has no two entries equal up to case, keeps the order of first
      occurrences, and survives being saved as text and read again. */
  lemma CoerceLaws(u: Chars, value: Value)
    requires u.isSpace(' ')
    ensures var r := Coerced(u, value);
            && DistinctKeys(u.lower, r)
            && (forall w :: w in r ==> IsWord(u, w))
            && Coerced(u, Single(Text(Join(", ", r)))) == r
            && Coerced(u, Many(seq(|r|, i requires 0 <= i < |r| => Text(r[i])))) == r
            && (value.Many? ==> InOrder(u.lower, SplitEntries(u, value.entries), r))
            && (value.Single? && value.entry.Text? ==> InOrder(u.lower, SplitEntry(u, value.entry.text), r))
  {
    hide FirstOnly, SplitEntry, SplitEntries, Join, InOrder;
    var items := match value
      case Single(Text(s)) => SplitEntry(u, s)
      case Single(NotText) => []
      case Many(entries) => SplitEntries(u, entries);
    match value {
      case Single(Text(s)) => SplitEntryWords(u, s);
      case Single(NotText) =>
      case Many(entries) => SplitEntriesWords(u, entries);
    }
    var r := Coerced(u, value);
    NoItems(u.lower);
    FirstOnlyLaws(u.lower, items);
    FirstOnlyInOrder(u.lower, items);
    JoinedWordsSplit(u, r);
    FirstOnlyFixed(u.lower, r);
    EntriesOfWords(u, r);
  }

  lemma NoItems(key: string -> string)
    ensures FirstOnly(key, []) == []
  {
  }

  lemma {:induction false} EntriesOfWords(u: Chars, parts: seq<string>)
    requires u.isSpace(' ') && forall w :: w in parts ==> IsWord(u, w)
    ensures SplitEntries(u, seq(|parts|, i requires 0 <= i < |parts| => Text(parts[i]))) == parts
  {
    var entries := seq(|parts|, i requires 0 <= i < |parts| => Text(parts[i]));
    if parts != [] {
      var n := |parts| - 1;
      EntriesOfWords(u, parts[..n]);
      assert entries[..n] == seq(n, i requires 0 <= i < n => Text(parts[..n][i]));
      JoinedWordsSplit(u, [parts[n]]);
      assert Join(", ", [parts[n]]) == parts[n];
      assert parts == parts[..n] + [parts[n]];
    }
  }

  // ---------------------------------------------------------------- the downloaded pool

  /** `s.split('.')` */
  function Labels(s: string): (r: seq<string>)
    ensures r != []
  {
    if s == [] then [""]
    else
      var more := Labels(s[1..]);
      if s[0] == '.' then [""] + more else [[s[0]] + more[0]] + more[1..]
  }

  predicate ValidLabel(u: Chars, part: string) {
    && 0 < |part| <= 63
    && part[0] != '-' && part[|part| - 1] != '-'
    && forall i :: 0 <= i < |part| ==> u.isAlnum(part[i]) || part[i] == '-'
  }

  predicate TopLevel(u: Chars, part: string) {
    |part| >= 2 && exists i :: 0 <= i < |part| && u.isAlpha(part[i])
  }

  method IsValidDomain(u: Chars, domain: string) returns (ok: bool)
    requires !u.isAlnum('.')
    ensures ok <==> DomainName(u, domain)
  {
    if domain == [] || |domain| > 253 {
      TooShortOrLong(u, domain);
      return false;
    }
    var labels := Labels(domain);
    LabelsJoin(domain);
    DomainNameLabels(u, domain);
    if domain[0] == '.' || domain[|domain| - 1] == '.' {
      OuterDots(u, domain);
      return false;
    }
    if |labels| < 2 {
      return false;
    }
    for i := 0 to |labels|
      invariant forall j :: 0 <= j < i ==> ValidLabel(u, labels[j])
    {
      var part := labels[i];
      assert part in labels;
      if part == [] || |part| > 63 {
        return false;
      }
      if part[0] == '-' || part[|part| - 1] == '-' {
        return false;
      }
      if exists k :: 0 <= k < |part| && !(u.isAlnum(part[k]) || part[k] == '-') {
        return false;
      }
    }
    var tld := labels[|labels| - 1];
    return |tld| >= 2 && exists k :: 0 <= k < |tld| && u.isAlpha(tld[k]);
  }

  /** The grammar of a domain name: at least two labels joined by dots, each of 1 to 63
      letters, digits and inner hyphens, the last with a letter and of two characters or more. */
  ghost predicate DomainName(u: Chars, domain: string) {
    |domain| <= 253 && exists labels :: Spells(u, labels, domain)
  }

  predicate Spells(u: Chars, labels: seq<string>, domain: string) {
    && |labels| >= 2 && Join(".", labels) == domain
    && (forall part :: part in labels ==> ValidLabel(u, part))
    && TopLevel(u, labels[|labels| - 1])
  }

  lemma JoinAfterDot(more: seq<string>)
    requires more != []
    ensures Join(".", [""] + more) == "." + Join(".", more)
  {
    assert ([""] + more)[1..] == more;
    assert "" + "." == ".";
  }

  lemma JoinAfterChar(c: char, more: seq<string>)
    requires more != []
    ensures Join(".", [[c] + more[0]] + more[1..]) == [c] + Join(".", more)
  {
    var labels := [[c] + more[0]] + more[1..];
    assert labels[1..] == more[1..];
    if |more| > 1 {
      Associative([c], more[0], ".");
      Associative([c], more[0] + ".", Join(".", more[1..]));
    }
  }

  lemma {:induction false} LabelsJoin(s: string)
    ensures Join(".", Labels(s)) == s
    ensures forall part :: part in Labels(s) ==> '.' !in part
  {
    if s != [] {
      hide Join;
      LabelsJoin(s[1..]);
      var more := Labels(s[1..]);
      JoinAfterDot(more);
      JoinAfterChar(s[0], more);
      assert s == [s[0]] + s[1..];
    }
  }

  lemma {:induction false} JoinLabels(labels: seq<string>)
    requires labels != [] && forall part :: part in labels ==> '.' !in part
    ensures Labels(Join(".", labels)) == labels
    decreases |labels|, |labels[0]|
  {
    var s := Join(".", labels);
    var first := labels[0];
    assert first in labels;
    if first != [] {
      var shorter := [first[1..]] + labels[1..];
      assert s == [first[0]] + Join(".", shorter);
      assert s[1..] == Join(".", shorter);
      JoinLabels(shorter);
      assert [first[0]] + first[1..] == first && first[0] != '.';
      assert labels == [first] + labels[1..] && shorter[1..] == labels[1..];
    } else if |labels| > 1 {
      JoinLabels(labels[1..]);
      assert s == "." + Join(".", labels[1..]);
      assert s[1..] == Join(".", labels[1..]);
      assert labels == [""] + labels[1..];
    } else {
      assert labels == [""];
    }
  }

  /** A name has one spelling, the one splitting at the dots finds. */
  lemma DomainNameLabels(u: Chars, domain: string)
    requires !u.isAlnum('.')
    ensures DomainName(u, domain) <==> |domain| <= 253 && Spells(u, Labels(domain), domain)
  {
    if labels :| Spells(u, labels, domain) {
      JoinLabels(labels);
    }
  }

  lemma TooShortOrLong(u: Chars, domain: string)
    requires domain == [] || |domain| > 253
    requires !u.isAlnum('.')
    ensures !DomainName(u, domain)
  {
    DomainNameLabels(u, domain);
  }

  lemma {:induction false} LastLabel(s: string)
    requires s != [] && s[|s| - 1] == '.'
    ensures |Labels(s)| >= 2 && Labels(s)[|Labels(s)| - 1] == ""
  {
    if |s| > 1 {
      LastLabel(s[1..]);
    } else {
      assert s == ".";
      assert Labels(s) == [""] + Labels("");
    }
  }

  lemma OuterDots(u: Chars, domain: string)
    requires !u.isAlnum('.')
    requires domain != [] && (domain[0] == '.' || domain[|domain| - 1] == '.')
    ensures !DomainName(u, domain)
  {
    DomainNameLabels(u, domain);
    if domain[0] == '.' {
      assert Labels(domain)[0] == "";
      assert "" in Labels(domain);
    } else {
      LastLabel(domain);
    }
  }

  lemma {:induction false} LabelsPrepend(p: string, rest: string)
    requires '.' !in p
    ensures Labels(p + "." + rest) == [p] + Labels(rest)
  {
    var s := p + "." + rest;
    if p == [] {
      assert s == "." + rest && s[1..] == rest;
    } else {
      LabelsPrepend(p[1..], rest);
      assert s[0] == p[0] && s[1..] == p[1..] + "." + rest;
      assert [p[0]] + p[1..] == p;
    }
  }

  lemma {:induction false} NoDots(s: string)
    requires '.' !in s
    ensures Labels(s) == [s]
  {
    if s != [] {
      NoDots(s[1..]);
      assert s == [s[0]] + s[1..];
    }
  }

  lemma NameNeedsDot(u: Chars, p: string)
    requires !u.isAlnum('.') && '.' !in p
    ensures !DomainName(u, p)
  {
    DomainNameLabels(u, p);
    NoDots(p);
  }

  lemma NameOfTwo(u: Chars, p: string, q: string)
    requires !u.isAlnum('.') && '.' !in p && '.' !in q
    ensures DomainName(u, p + "." + q) <==>
            ValidLabel(u, p) && ValidLabel(u, q) && TopLevel(u, q) && |p + "." + q| <= 253
  {
    hide ValidLabel, TopLevel, Labels;
    var name := p + "." + q;
    DomainNameLabels(u, name);
    LabelsPrepend(p, q);
    LabelsJoin(name);
    NoDots(q);
    assert [p] + [q] == [p, q];
  }

  lemma NameOfMore(u: Chars, p: string, q: string)
    requires !u.isAlnum('.') && '.' !in p && '.' in q
    ensures DomainName(u, p + "." + q) <==> ValidLabel(u, p) && DomainName(u, q) && |p + "." + q| <= 253
  {
    hide ValidLabel, TopLevel, Labels;
    var name := p + "." + q;
    DomainNameLabels(u, name);
    DomainNameLabels(u, q);
    LabelsPrepend(p, q);
    LabelsJoin(name);
    LabelsJoin(q);
    SomeDots(q);
    var labels := Labels(q);
    assert ([p] + labels)[|labels|] == labels[|labels| - 1];
    assert forall part :: part in [p] + labels <==> part == p || part in labels;
  }

  /** Label by label: a name has a dot; before its last dot only labels of 1 to 63 letters,
      digits and inner hyphens; after it such a label of two characters or more with a
      letter; and 253 characters in all. */
  lemma NameByName(u: Chars, p: string, q: string)
    requires !u.isAlnum('.') && '.' !in p
    ensures !DomainName(u, p)
    ensures var name := p + "." + q;
            var good := && 1 <= |p| <= 63 && p[0] != '-' && p[|p| - 1] != '-'
                        && forall i :: 0 <= i < |p| ==> u.isAlnum(p[i]) || p[i] == '-';
            var last := && 2 <= |q| <= 63 && q[0] != '-' && q[|q| - 1] != '-'
                        && (forall i :: 0 <= i < |q| ==> u.isAlnum(q[i]) || q[i] == '-')
                        && exists i :: 0 <= i < |q| && u.isAlpha(q[i]);
            DomainName(u, name) <==> good && |name| <= 253 && if '.' in q then DomainName(u, q) else last
  {
    hide DomainName;
    NameNeedsDot(u, p);
    if '.' in q {
      NameOfMore(u, p, q);
    } else {
      NameOfTwo(u, p, q);
    }
  }

  lemma {:induction false} SomeDots(s: string)
    requires '.' in s
    ensures |Labels(s)| >= 2
  {
    if s[0] != '.' {
      SomeDots(s[1..]);
    }
  }

  function Normal(u: Chars, domain: string): string {
    u.lower(Strip(u, domain))
  }

  /** White space around a name goes, and its letters become small. */
  lemma NormalForm(u: Chars, pre: string, core: string, post: string)
    requires (forall i :: 0 <= i < |pre| ==> u.isSpace(pre[i])) && (forall i :: 0 <= i < |post| ==> u.isSpace(post[i]))
    requires core != [] ==> !u.isSpace(core[0]) && !u.isSpace(core[|core| - 1])
    ensures Normal(u, pre + core + post) == u.lower(core)
  {
    StripTrims(u, pre, core, post);
  }

  /** The valid names of a download, normalised, before duplicates go. */
  ghost function ValidNames(u: Chars, domains: seq<string>): seq<string> {
    if domains == [] then []
    else
      var n := |domains| - 1;
      var item := Normal(u, domains[n]);
      ValidNames(u, domains[..n]) + if DomainName(u, item) then [item] else []
  }

  ghost function Pool(u: Chars, domains: seq<string>): seq<string> {
    FirstOnly(x => x, ValidNames(u, domains))
  }

  method NormalizeDomainPool(u: Chars, domains: seq<string>) returns (normalized: seq<string>)
    requires !u.isAlnum('.')
    ensures normalized == Pool(u, domains)
  {
    var key := x => x;
    ghost var names := [];
    var seen: set<string> := {};
    normalized := [];
    assert domains[..0] == [];
    for i := 0 to |domains|
      invariant names == ValidNames(u, domains[..i])
      invariant seen == Keys(key, names)
      invariant normalized == FirstOnly(key, names)
    {
      assert domains[..i + 1][..i] == domains[..i];
      var item := Normal(u, domains[i]);
      var valid := IsValidDomain(u, item);
      if !valid {
        assert names + [] == names;
        continue;
      }
      KeysSnoc(key, names, item);
      assert (names + [item])[..|names|] == names;
      names := names + [item];
      if item in seen {
        assert normalized + [] == normalized;
        continue;
      }
      seen := seen + {item};
      normalized := normalized + [item];
    }
    assert domains[..|domains|] == domains;
  }

  lemma {:induction false} ValidNamesAre(u: Chars, domains: seq<string>, x: string)
    ensures x in ValidNames(u, domains)
            <==> DomainName(u, x) && exists i :: 0 <= i < |domains| && Normal(u, domains[i]) == x
    ensures |ValidNames(u, domains)| <= |domains|
  {
    if domains != [] {
      var n := |domains| - 1;
      ValidNamesAre(u, domains[..n], x);
      assert domains == domains[..n] + [domains[n]];
    }
  }

  /** The pool holds exactly the valid names of the download, each once, in order. */
  lemma PoolLaws(u: Chars, domains: seq<string>, x: string)
    ensures var pool := Pool(u, domains);
            && (forall i, j :: 0 <= i < j < |pool| ==> pool[i] != pool[j])
            && InOrder(x => x, ValidNames(u, domains), pool)
            && (x in pool <==> DomainName(u, x) && exists i :: 0 <= i < |domains| && Normal(u, domains[i]) == x)
  {
    var key: string -> string := x => x;
    var names := ValidNames(u, domains);
    FirstOnlyLaws(key, names);
    FirstOnlyInOrder(key, names);
    ValidNamesAre(u, domains, x);
    assert x in Keys(key, names) <==> x in names;
    assert x in Keys(key, Pool(u, domains)) <==> x in Pool(u, domains);
  }

  lemma SameEnds<T>(a: seq<T>, x: T, b: seq<T>, y: T)
    ensures a + [x] == b + [y] <==> a == b && x == y
  {
    if a + [x] == b + [y] {
      assert |a| == |b| && a == (a + [x])[..|a|] == (b + [y])[..|b|];
      assert x == (a + [x])[|a|] == (b + [y])[|b|];
    }
  }

  lemma OneMoreFixed(u: Chars, front: seq<string>, last: string)
    requires DomainName(u, last)
    ensures ValidNames(u, front + [last]) == front + [last]
            <==> ValidNames(u, front) == front && Normal(u, last) == last
  {
    hide DomainName, Normal;
    ValidNamesAre(u, front, "");
    assert (front + [last])[..|front|] == front;
    SameEnds(ValidNames(u, front), Normal(u, last), front, last);
  }

  lemma {:induction false} ValidNamesFixed(u: Chars, domains: seq<string>)
    requires forall i :: 0 <= i < |domains| ==> DomainName(u, domains[i])
    ensures ValidNames(u, domains) == domains
            <==> forall i :: 0 <= i < |domains| ==> Normal(u, domains[i]) == domains[i]
  {
    hide DomainName, Normal;
    if domains != [] {
      hide ValidNames;
      var front, last := domains[..|domains| - 1], domains[|domains| - 1];
      assert domains == front + [last];
      assert forall i :: 0 <= i < |front| ==> front[i] == domains[i];
      ValidNamesFixed(u, front);
      OneMoreFixed(u, front, last);
    }
  }

  /** Normalising a pool again changes nothing exactly when its names are unchanged by
      stripping and lower-casing. */
  lemma PoolFixed(u: Chars, domains: seq<string>)
    ensures var pool := Pool(u, domains);
            Pool(u, pool) == pool <==> forall d :: d in pool ==> Normal(u, d) == d
  {
    var pool := Pool(u, domains);
    var key: string -> string := x => x;
    forall d | d in pool
      ensures DomainName(u, d)
    {
      PoolLaws(u, domains, d);
    }
    PoolLaws(u, domains, "");
    ValidNamesFixed(u, pool);
    FirstOnlyFixed(key, pool);
    var names := ValidNames(u, pool);
    ValidNamesAre(u, pool, "");
    FirstOnlyShorter(key, names);
  }

  lemma {:induction false} FirstOnlyShorter(key: string -> string, items: seq<string>)
    ensures |FirstOnly(key, items)| <= |items|
    ensures |FirstOnly(key, items)| == |items| ==> FirstOnly(key, items) == items
  {
    if items != [] {
      var n := |items| - 1;
      FirstOnlyShorter(key, items[..n]);
      assert items == items[..n] + [items[n]];
    }
  }
}
