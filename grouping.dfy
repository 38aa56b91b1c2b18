/** The grouped strategies (Per Month, Per Year, Per Newspaper, Per Spatial):
    rows are bucketed by a key, buckets are visited in ascending key order, and
    each bucket becomes one file holding its rows' texts joined by the record
    separator. */
module Grouping {
  import opened Wrappers
  import opened Decimal
  import opened Counting
  import opened Text
  import opened Records

  /** A group key: a year, or a month label, newspaper or spatial value. */
  datatype Key = Num(n: nat) | Str(s: string)

  /** Python's ordering of strings: by code point, a proper prefix first. */
  predicate LexLess(a: string, b: string)
    decreases |a|
  {
    if |a| == 0 then |b| > 0
    else if |b| == 0 then false
    else if a[0] != b[0] then a[0] < b[0]
    else LexLess(a[1..], b[1..])
  }

  lemma {:induction false} LexIrreflexive(a: string)
    ensures !LexLess(a, a)
    decreases |a|
  {
    if |a| > 0 {
      LexIrreflexive(a[1..]);
    }
  }

  lemma {:induction false} LexTransitive(a: string, b: string, c: string)
    requires LexLess(a, b) && LexLess(b, c)
    ensures LexLess(a, c)
    decreases |a|
  {
    if |a| > 0 && a[0] == b[0] && b[0] == c[0] {
      LexTransitive(a[1..], b[1..], c[1..]);
    }
  }

  lemma {:induction false} LexTotal(a: string, b: string)
    requires a != b
    ensures LexLess(a, b) || LexLess(b, a)
    decreases |a|
  {
    if |a| > 0 && |b| > 0 && a[0] == b[0] {
      assert a == [a[0]] + a[1..] && b == [b[0]] + b[1..];
      LexTotal(a[1..], b[1..]);
    }
  }

  /** The order in which `groupby` visits its keys: numbers numerically, strings
      as Python compares them. (A strategy never mixes the two kinds.) */
  predicate Below(a: Key, b: Key) {
    match (a, b)
    case (Num(x), Num(y)) => x < y
    case (Str(x), Str(y)) => LexLess(x, y)
    case (Num(_), Str(_)) => true
    case (Str(_), Num(_)) => false
  }

  lemma BelowIrreflexive(a: Key)
    ensures !Below(a, a)
  {
    if a.Str? {
      LexIrreflexive(a.s);
    }
  }

  lemma BelowTransitive(a: Key, b: Key, c: Key)
    requires Below(a, b) && Below(b, c)
    ensures Below(a, c)
  {
    if a.Str? && b.Str? && c.Str? {
      LexTransitive(a.s, b.s, c.s);
    }
  }

  lemma BelowAsymmetric(a: Key, b: Key)
    requires Below(a, b)
    ensures !Below(b, a)
  {
    if Below(b, a) {
      BelowTransitive(a, b, a);
      BelowIrreflexive(a);
      assert false;
    }
  }

  lemma BelowTotal(a: Key, b: Key)
    requires a != b
    ensures Below(a, b) || Below(b, a)
  {
    if a.Str? && b.Str? {
      LexTotal(a.s, b.s);
    }
  }

  predicate StrictlySorted(ks: seq<Key>) {
    forall i, j :: 0 <= i < j < |ks| ==> Below(ks[i], ks[j])
  }

  lemma SortedCons(k: Key, ks: seq<Key>)
    requires StrictlySorted(ks)
    requires forall x :: x in ks ==> Below(k, x)
    ensures StrictlySorted([k] + ks)
  {
    var r := [k] + ks;
    forall i, j | 0 <= i < j < |r| ensures Below(r[i], r[j]) {
      if i > 0 {
        assert r[i] == ks[i - 1] && r[j] == ks[j - 1];
      } else {
        assert r[j] in ks;
      }
    }
  }

  /** Insertion of a key into an ascending, repetition-free key list. */
  function Insert(ks: seq<Key>, k: Key): (r: seq<Key>)
    requires StrictlySorted(ks)
    ensures StrictlySorted(r)
    ensures forall x :: x in r <==> x in ks || x == k
    decreases |ks|
  {
    if ks == [] then [k]
    else if k == ks[0] then ks
    else if Below(k, ks[0]) then
      InsertBefore(k, ks);
      [k] + ks
    else
      BelowTotal(k, ks[0]);
      var rest := Insert(ks[1..], k);
      InsertAfter(ks[0], ks[1..], k, rest);
      [ks[0]] + rest
  }

  lemma InsertBefore(k: Key, ks: seq<Key>)
    requires StrictlySorted(ks) && ks != [] && Below(k, ks[0])
    ensures StrictlySorted([k] + ks)
  {
    forall x | x in ks ensures Below(k, x) {
      if x != ks[0] {
        BelowTransitive(k, ks[0], x);
      }
    }
    SortedCons(k, ks);
  }

  lemma InsertAfter(first: Key, ks: seq<Key>, k: Key, rest: seq<Key>)
    requires StrictlySorted([first] + ks) && Below(first, k)
    requires StrictlySorted(rest)
    requires forall x :: x in rest <==> x in ks || x == k
    ensures StrictlySorted([first] + rest)
  {
    forall x | x in rest ensures Below(first, x) {
      if x != k {
        var i :| 0 <= i < |ks| && ks[i] == x;
        assert Below(([first] + ks)[0], ([first] + ks)[i + 1]);
      }
    }
    SortedCons(first, rest);
  }

  /** The keys `groupby` visits: every key some row has, once, ascending; rows
      whose key is missing contribute none. */
  function SortedKeys(keys: seq<Option<Key>>): (r: seq<Key>)
    ensures StrictlySorted(r)
    ensures forall k :: k in r <==> Some(k) in keys
    decreases |keys|
  {
    if keys == [] then []
    else
      var init := keys[..|keys| - 1];
      assert keys == init + [keys[|keys| - 1]];
      match keys[|keys| - 1]
      case None => SortedKeys(init)
      case Some(k) => Insert(SortedKeys(init), k)
  }

  lemma SortedKeysSnoc(keys: seq<Option<Key>>, key: Option<Key>)
    ensures SortedKeys(keys + [key]) == (match key case None => SortedKeys(keys) case Some(k) => Insert(SortedKeys(keys), k))
  {
    assert (keys + [key])[..|keys|] == keys;
  }

  /** The texts of the rows whose key is `k`, in input order. */
  function Members(keys: seq<Option<Key>>, texts: seq<string>, k: Key): (r: seq<string>)
    requires |keys| == |texts|
    decreases |keys|
  {
    if keys == [] then []
    else
      var n := |keys| - 1;
      Members(keys[..n], texts[..n], k) + (if keys[n] == Some(k) then [texts[n]] else [])
  }

  lemma MembersSnoc(keys: seq<Option<Key>>, texts: seq<string>, key: Option<Key>, text: string, k: Key)
    requires |keys| == |texts|
    ensures Members(keys + [key], texts + [text], k) == Members(keys, texts, k) + (if key == Some(k) then [text] else [])
  {
    assert (keys + [key])[..|keys|] == keys;
    assert (texts + [text])[..|texts|] == texts;
  }

  /** A group holds as many texts as there are rows with its key. */
  lemma {:induction false} MembersCount(keys: seq<Option<Key>>, texts: seq<string>, k: Key)
    requires |keys| == |texts|
    ensures |Members(keys, texts, k)| == Count(keys, Some(k))
    decreases |keys|
  {
    if keys != [] {
      var n := |keys| - 1;
      MembersCount(keys[..n], texts[..n], k);
    }
  }

  /** Row `i` sits in its group at the position given by the number of earlier
      rows with the same key: every row lands in its group once, in input order. */
  lemma {:induction false} MembersRank(keys: seq<Option<Key>>, texts: seq<string>, k: Key, i: nat)
    requires |keys| == |texts| && i < |keys| && keys[i] == Some(k)
    ensures Count(keys[..i], Some(k)) < |Members(keys, texts, k)|
    ensures Members(keys, texts, k)[Count(keys[..i], Some(k))] == texts[i]
    decreases |keys|
  {
    var n := |keys| - 1;
    MembersCount(keys[..n], texts[..n], k);
    if i < n {
      assert keys[..n][..i] == keys[..i];
      MembersRank(keys[..n], texts[..n], k, i);
    } else {
      assert keys[..i] == keys[..n];
    }
  }

  /** When every row carries the same key there is one group, holding every
      text in input order. */
  lemma {:induction false} SingleGroup(keys: seq<Option<Key>>, texts: seq<string>, k: Key)
    requires |keys| == |texts| >= 1
    requires forall i :: 0 <= i < |keys| ==> keys[i] == Some(k)
    ensures SortedKeys(keys) == [k]
    ensures Members(keys, texts, k) == texts
    decreases |keys|
  {
    var n := |keys| - 1;
    SortedKeysSnoc(keys[..n], keys[n]);
    MembersSnoc(keys[..n], texts[..n], keys[n], texts[n], k);
    assert keys[..n] + [keys[n]] == keys;
    assert texts[..n] + [texts[n]] == texts;
    if n > 0 {
      SingleGroup(keys[..n], texts[..n], k);
    }
  }

  /** Two rows with distinct keys, the first below the second, give two
      groups in that order. */
  lemma TwoGroups(keys: seq<Option<Key>>, a: Key, b: Key)
    requires keys == [Some(a), Some(b)] && Below(a, b)
    ensures SortedKeys(keys) == [a, b]
  {
    assert keys[..1] == [Some(a)];
    assert SortedKeys([Some(a)]) == [a];
    BelowIrreflexive(a);
    BelowAsymmetric(a, b);
    assert Insert([a], b) == [a, b];
  }

  /** A key that occurs has a non-empty group. */
  lemma MembersNonEmpty(keys: seq<Option<Key>>, texts: seq<string>, k: Key)
    requires |keys| == |texts| && Some(k) in keys
    ensures |Members(keys, texts, k)| >= 1
  {
    MembersCount(keys, texts, k);
    CountPositive(keys, Some(k));
  }

  /** The group key of a record under a grouped strategy: the derived month
      label (never missing: a missing date reads `NaT`), the derived year, the
      newspaper or the spatial value; `None` means `groupby` drops the row. */
  function KeyOf(s: Strategy, r: Record): (k: Option<Key>)
    requires s != PerRow
    ensures s == PerMonth ==> k == Some(Str(r.month))
    ensures s == PerYear ==> (k.Some? <==> r.year.Some?) && (k.Some? ==> k.value == Num(r.year.value))
    ensures s == PerNewspaper ==> (k.Some? <==> r.newspaper.Some?) && (k.Some? ==> k.value == Str(r.newspaper.value))
    ensures s == PerSpatial ==> (k.Some? <==> r.spatial.Some?) && (k.Some? ==> k.value == Str(r.spatial.value))
  {
    match s
    case PerMonth => Some(Str(r.month))
    case PerYear => (match r.year case None => None case Some(y) => Some(Num(y)))
    case PerNewspaper => (match r.newspaper case None => None case Some(v) => Some(Str(v)))
    case PerSpatial => (match r.spatial case None => None case Some(v) => Some(Str(v)))
  }

  function GroupKeys(records: seq<Record>, s: Strategy): (keys: seq<Option<Key>>)
    requires s != PerRow
    ensures |keys| == |records|
    ensures forall i :: 0 <= i < |records| ==> keys[i] == KeyOf(s, records[i])
  {
    seq(|records|, i requires 0 <= i < |records| => KeyOf(s, records[i]))
  }

  /** The file name of a group: the month label, the year as an integer, or the
      sanitized newspaper or spatial value, followed by `.txt`. */
  function GroupName(s: Strategy, k: Key): (r: string) {
    match k
    case Num(n) => Dec(n) + ".txt"
    case Str(v) => (if s == PerNewspaper || s == PerSpatial then Sanitize(v) else v) + ".txt"
  }

  /** The entries written for rows with group keys `keys` and contents `texts`:
      one entry per key, ascending, holding the group's texts joined by the
      record separator. */
  function GroupEntries(s: Strategy, keys: seq<Option<Key>>, texts: seq<string>): (r: seq<Entry>)
    requires |keys| == |texts|
  {
    var order := SortedKeys(keys);
    seq(|order|, j requires 0 <= j < |order| =>
      Entry(GroupName(s, order[j]), Join(Members(keys, texts, order[j]), Separator)))
  }

  /** The archive of a grouped strategy. */
  function GroupedEntries(records: seq<Record>, s: Strategy): (r: seq<Entry>)
    requires s != PerRow
  {
    GroupEntries(s, GroupKeys(records, s), Texts(records))
  }

  /** The distinct keys the rows carry (rows without a key carry none). */
  function PresentKeys(keys: seq<Option<Key>>): (r: set<Key>) {
    set o | o in keys && o.Some? :: o.value
  }

  lemma {:induction false} SortedSize(ks: seq<Key>)
    requires StrictlySorted(ks)
    ensures |set x | x in ks| == |ks|
    decreases |ks|
  {
    if ks != [] {
      var tail := ks[1..];
      SortedSize(tail);
      assert (set x | x in ks) == {ks[0]} + (set x | x in tail);
      if ks[0] in tail {
        var j :| 0 <= j < |tail| && tail[j] == ks[0];
        assert ks[j + 1] == ks[0];
        BelowIrreflexive(ks[0]);
      }
    }
  }

  /** A grouped archive has exactly one entry per distinct key, none per row
      whose key is missing. */
  lemma GroupedEntriesCount(records: seq<Record>, s: Strategy)
    requires s != PerRow
    ensures |GroupedEntries(records, s)| == |PresentKeys(GroupKeys(records, s))|
  {
    var keys := GroupKeys(records, s);
    var order := SortedKeys(keys);
    SortedSize(order);
    assert (set x | x in order) == PresentKeys(keys);
  }

  /** Each entry's content is its group's texts joined by the separator: one
      text gives no separator, k texts k - 1 of them; and as long as no text runs
      into a separator, splitting the content on the separator gives back the
      group's texts, in input order. */
  lemma GroupedContent(records: seq<Record>, s: Strategy, j: nat)
    requires s != PerRow && j < |GroupedEntries(records, s)|
    ensures var keys := GroupKeys(records, s);
      var k := SortedKeys(keys)[j];
      var parts := Members(keys, Texts(records), k);
      && |parts| >= 1
      && GroupedEntries(records, s)[j].content == Join(parts, Separator)
      && |GroupedEntries(records, s)[j].content| == TotalLength(parts) + (|parts| - 1) * |Separator|
      && ((forall i :: 0 <= i < |records| ==> Clean(Texts(records)[i], Separator)) ==>
            Split(GroupedEntries(records, s)[j].content, Separator) == parts)
  {
    var keys := GroupKeys(records, s);
    var texts := Texts(records);
    var k := SortedKeys(keys)[j];
    var parts := Members(keys, texts, k);
    MembersNonEmpty(keys, texts, k);
    JoinLength(parts, Separator);
    if forall i :: 0 <= i < |records| ==> Clean(texts[i], Separator) {
      forall m | 0 <= m < |parts| ensures Clean(parts[m], Separator) {
        MembersFrom(keys, texts, k, m);
      }
      SplitJoin(parts, Separator);
    }
  }

  /** Every text of a group is the text of some row. */
  lemma {:induction false} MembersFrom(keys: seq<Option<Key>>, texts: seq<string>, k: Key, m: nat)
    requires |keys| == |texts| && m < |Members(keys, texts, k)|
    ensures exists i :: 0 <= i < |texts| && keys[i] == Some(k) && Members(keys, texts, k)[m] == texts[i]
    decreases |keys|
  {
    var n := |keys| - 1;
    var init := Members(keys[..n], texts[..n], k);
    if m < |init| {
      MembersFrom(keys[..n], texts[..n], k, m);
      var i :| 0 <= i < n && keys[..n][i] == Some(k) && init[m] == texts[..n][i];
      assert keys[i] == Some(k) && texts[i] == texts[..n][i];
    } else {
      assert keys[n] == Some(k) && Members(keys, texts, k)[m] == texts[n];
    }
  }

  /** The one pass `groupby` makes: a dictionary from key to the texts of its
      rows, built in input order, and the ascending list of keys seen. */
  method GroupRows(keys: seq<Option<Key>>, texts: seq<string>) returns (order: seq<Key>, groups: map<Key, seq<string>>)
    requires |keys| == |texts|
    ensures order == SortedKeys(keys)
    ensures forall k :: k in groups <==> Some(k) in keys
    ensures forall k :: k in groups ==> groups[k] == Members(keys, texts, k)
  {
    order, groups := [], map[];
    for i := 0 to |keys|
      invariant order == SortedKeys(keys[..i])
      invariant forall k :: k in groups <==> Some(k) in keys[..i]
      invariant forall k :: k in groups ==> groups[k] == Members(keys[..i], texts[..i], k)
    {
      assert keys[..i + 1] == keys[..i] + [keys[i]] && texts[..i + 1] == texts[..i] + [texts[i]];
      SortedKeysSnoc(keys[..i], keys[i]);
      forall k ensures Members(keys[..i + 1], texts[..i + 1], k)
          == Members(keys[..i], texts[..i], k) + (if keys[i] == Some(k) then [texts[i]] else []) {
        MembersSnoc(keys[..i], texts[..i], keys[i], texts[i], k);
      }
      match keys[i] {
        case None =>
        case Some(k) =>
          if k !in groups {
            MembersCount(keys[..i], texts[..i], k);
            CountPositive(keys[..i], Some(k));
          }
          order := Insert(order, k);
          groups := groups[k := (if k in groups then groups[k] else []) + [texts[i]]];
      }
    }
    assert keys[..|keys|] == keys && texts[..|texts|] == texts;
  }

  /** Writing the groups: one entry per key in ascending order. */
  method WriteGroups(s: Strategy, keys: seq<Option<Key>>, texts: seq<string>) returns (entries: seq<Entry>)
    requires |keys| == |texts|
    ensures entries == GroupEntries(s, keys, texts)
  {
    var order, groups := GroupRows(keys, texts);
    ghost var expected := GroupEntries(s, keys, texts);
    entries := [];
    for j := 0 to |order|
      invariant entries == expected[..j]
    {
      assert order[j] in groups && groups[order[j]] == Members(keys, texts, order[j]);
      var content := Join(groups[order[j]], Separator);
      assert expected[j] == Entry(GroupName(s, order[j]), content);
      entries := entries + [Entry(GroupName(s, order[j]), content)];
    }
    assert expected[..|order|] == expected;
  }

  /** A grouped strategy: group the rows, then write one entry per group in
      ascending key order. */
  method SplitGrouped(records: seq<Record>, s: Strategy) returns (entries: seq<Entry>)
    requires s != PerRow
    ensures entries == GroupedEntries(records, s)
  {
    entries := WriteGroups(s, GroupKeys(records, s), Texts(records));
  }

  /** Three rows `A`, `B`, `C`, all dated 2023-07-01, split per month give the
      single file `2023-07.txt` holding the three texts with two separators. */
  lemma PerMonthExample(records: seq<Record>)
    requires |records| == 3
    requires forall i :: 0 <= i < 3 ==> records[i].month == MonthLabel(Some(Date(2023, 7, 1)))
    requires records[0].ocr == Some("A") && records[1].ocr == Some("B") && records[2].ocr == Some("C")
    ensures GroupedEntries(records, PerMonth) == [Entry("2023-07.txt", "A\n\n---\n\nB\n\n---\n\nC")]
  {
    MonthLabelExample();
    var keys := GroupKeys(records, PerMonth);
    var k := Str("2023-07");
    var texts := Texts(records);
    SingleGroup(keys, texts, k);
    assert texts == ["A", "B", "C"];
    JoinExample(texts);
    var entries := GroupedEntries(records, PerMonth);
    assert |entries| == 1;
    assert entries[0] == Entry(GroupName(PerMonth, k), Join(texts, Separator));
    assert GroupName(PerMonth, k) == k.s + ".txt";
    assert entries == [entries[0]];
    assert entries[0].name == "2023-07.txt";
    assert entries[0].content == "A\n\n---\n\nB\n\n---\n\nC";
  }

  /** The newspaper `Daily/Herald: Edition` is written to `Daily_Herald_ Edition.txt`:
      the slash and the colon become underscores, the space stays. */
  lemma SanitizeExample(paper: string)
    requires paper == "Daily/Herald: Edition"
    ensures GroupName(PerNewspaper, Str(paper)) == "Daily_Herald_ Edition.txt"
  {
  }

  /** The grouped strategies add no numeric suffix: two newspapers that differ
      only in punctuation give two entries with the same name. */
  lemma DuplicateNameExample(records: seq<Record>)
    requires |records| == 2
    requires records[0].newspaper == Some("A/B") && records[1].newspaper == Some("A:B")
    ensures var entries := GroupedEntries(records, PerNewspaper);
      |entries| == 2 && entries[0].name == entries[1].name == "A_B.txt"
  {
    var keys := GroupKeys(records, PerNewspaper);
    var a, b := Str("A/B"), Str("A:B");
    assert keys == [Some(a), Some(b)];
    assert Below(a, b);
    TwoGroups(keys, a, b);
    var ra, rb := Sanitize(a.s), Sanitize(b.s);
    assert ra[0] == 'A' && ra[1] == '_' && ra[2] == 'B';
    assert rb[0] == 'A' && rb[1] == '_' && rb[2] == 'B';
    assert ra == "A_B" == rb;
  }
}
