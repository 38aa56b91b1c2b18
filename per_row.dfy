/** The "Per Row" strategy: one file per row, named after the row's date with a
    running count per date that suffixes repeated names. */
module PerRow {
  import opened Decimal
  import opened Counting
  import opened Records

  /** The name of the `count`-th file with base `base`: `base.txt` the first
      time, `base_<count>.txt` afterwards. */
  function FileName(base: string, count: nat): (r: string) {
    if count == 1 then base + ".txt" else base + "_" + Dec(count) + ".txt"
  }

  /** Over a base without an underscore, only the first file name is free of one. */
  lemma SuffixHasUnderscore(b: string, k: nat)
    requires NoUnderscore(b)
    ensures NoUnderscore(FileName(b, k)) <==> k == 1
  {
    var s := FileName(b, k);
    if k == 1 {
      forall i | 0 <= i < |s| ensures s[i] != '_' {
        if i >= |b| {
          assert s[i] == ".txt"[i - |b|];
        }
      }
    } else {
      assert s[|b|] == '_';
    }
  }

  /** Over bases without an underscore, a file name determines its base and count. */
  lemma FileNameInjective(b1: string, k1: nat, b2: string, k2: nat)
    requires NoUnderscore(b1) && NoUnderscore(b2)
    requires FileName(b1, k1) == FileName(b2, k2)
    ensures b1 == b2 && k1 == k2
  {
    var s := FileName(b1, k1);
    SuffixHasUnderscore(b1, k1);
    SuffixHasUnderscore(b2, k2);
    if k1 == 1 {
      assert b1 == s[..|b1|] && b2 == s[..|b2|];
    } else {
      assert s[|b1|] == '_' && s[|b2|] == '_';
      assert |b1| == |b2|;
      assert b1 == s[..|b1|] && b2 == s[..|b2|];
      var t1, t2 := Dec(k1) + ".txt", Dec(k2) + ".txt";
      assert s == (b1 + "_") + t1 && s == (b2 + "_") + t2;
      assert t1 == s[|b1| + 1..] == t2;
      assert Dec(k1) == t1[..|t1| - 4] && Dec(k2) == t2[..|t2| - 4];
      DecInjective(k1, k2);
    }
  }

  /** The base names of the rows, in input order. */
  function BaseKeys(records: seq<Record>): (keys: seq<string>)
    ensures |keys| == |records|
    ensures forall i :: 0 <= i < |records| ==> keys[i] == BaseKey(records[i].date)
  {
    seq(|records|, i requires 0 <= i < |records| => BaseKey(records[i].date))
  }

  /** The name of row `i`: its base with the number of rows up to and including
      row `i` that share that base. */
  function RowName(keys: seq<string>, i: nat): (r: string)
    requires i < |keys|
  {
    FileName(keys[i], Count(keys[..i + 1], keys[i]))
  }

  /** A row's file is unsuffixed exactly when it is the first row with its base. */
  lemma RowNameFirst(keys: seq<string>, i: nat)
    requires i < |keys|
    ensures RowName(keys, i) == keys[i] + ".txt" <==> keys[i] !in keys[..i]
  {
    assert keys[..i + 1] == keys[..i] + [keys[i]];
    CountSnoc(keys[..i], keys[i], keys[i]);
    CountPositive(keys[..i], keys[i]);
  }

  /** The entries the naming loop writes for rows with bases `keys` and
      contents `texts`: one entry per row, in row order. */
  function RowEntries(keys: seq<string>, texts: seq<string>): (r: seq<Entry>)
    requires |keys| == |texts|
  {
    seq(|keys|, i requires 0 <= i < |keys| => Entry(RowName(keys, i), texts[i]))
  }

  /** The archive of the "Per Row" strategy. */
  function PerRowEntries(records: seq<Record>): (r: seq<Entry>) {
    RowEntries(BaseKeys(records), Texts(records))
  }

  /** Row file names are pairwise distinct when no base contains an underscore. */
  lemma RowNamesDistinct(keys: seq<string>, i: nat, j: nat)
    requires i < j < |keys|
    requires forall k :: 0 <= k < |keys| ==> NoUnderscore(keys[k])
    ensures RowName(keys, i) != RowName(keys, j)
  {
    if RowName(keys, i) == RowName(keys, j) {
      FileNameInjective(keys[i], Count(keys[..i + 1], keys[i]), keys[j], Count(keys[..j + 1], keys[j]));
      CountPrefixGrows(keys, i, j);
    }
  }

  /** The per-row archive never repeats a file name: dates render without an
      underscore, and neither does `unknown`. */
  lemma PerRowNamesDistinct(records: seq<Record>)
    ensures forall i, j :: 0 <= i < j < |records| ==>
      PerRowEntries(records)[i].name != PerRowEntries(records)[j].name
  {
    var keys := BaseKeys(records);
    forall i, j | 0 <= i < j < |records|
      ensures PerRowEntries(records)[i].name != PerRowEntries(records)[j].name
    {
      RowNamesDistinct(keys, i, j);
    }
  }

  /** One iteration of the naming loop: looking the row's base up in the running
      dictionary gives the row's name and the dictionary after the row. */
  lemma RowNameStep(keys: seq<string>, i: nat, counts: map<string, nat>, count: nat)
    requires i < |keys| && counts == CountMap(keys[..i])
    requires count == (if keys[i] in counts then counts[keys[i]] else 0) + 1
    ensures RowName(keys, i) == FileName(keys[i], count)
    ensures CountMap(keys[..i + 1]) == counts[keys[i] := count]
  {
    CountMapStep(keys[..i], keys[i]);
    assert keys[..i + 1] == keys[..i] + [keys[i]];
    CountSnoc(keys[..i], keys[i], keys[i]);
  }

  /** The naming loop over rows already reduced to their bases and contents:
      one pass with a running dictionary from base to occurrence count, writing
      one entry per row. */
  method NameRows(keys: seq<string>, texts: seq<string>) returns (entries: seq<Entry>, dateCounts: map<string, nat>)
    requires |keys| == |texts|
    ensures entries == RowEntries(keys, texts)
    ensures dateCounts == CountMap(keys)
  {
    entries, dateCounts := [], map[];
    for i := 0 to |keys|
      invariant |entries| == i
      invariant forall j :: 0 <= j < i ==> entries[j] == Entry(RowName(keys, j), texts[j])
      invariant dateCounts == CountMap(keys[..i])
    {
      var dateStr := keys[i];
      var count := (if dateStr in dateCounts then dateCounts[dateStr] else 0) + 1;
      RowNameStep(keys, i, dateCounts, count);
      dateCounts := dateCounts[dateStr := count];
      var filename := if count == 1 then dateStr + ".txt" else dateStr + "_" + Dec(count) + ".txt";
      entries := entries + [Entry(filename, texts[i])];
    }
    assert keys[..|keys|] == keys;
  }

  /** The "Per Row" strategy: every row yields exactly one entry, named after
      its date with the running count, holding its OCR text; names never repeat
      and the final dictionary counts the rows of each base. */
  method SplitPerRow(records: seq<Record>) returns (entries: seq<Entry>, dateCounts: map<string, nat>)
    ensures |entries| == |records|
    ensures entries == PerRowEntries(records)
    ensures dateCounts == CountMap(BaseKeys(records))
    ensures forall i, j :: 0 <= i < j < |entries| ==> entries[i].name != entries[j].name
  {
    entries, dateCounts := NameRows(BaseKeys(records), Texts(records));
    PerRowNamesDistinct(records);
  }

  /** Three rows dated 2023-07-01, 2023-07-01 and 2023-07-02 give the files
      `2023-07-01.txt`, `2023-07-01_2.txt` and `2023-07-02.txt`. */
  lemma CollisionExample()
    ensures var keys := ["2023-07-01", "2023-07-01", "2023-07-02"];
      && DateKey(Date(2023, 7, 1)) == keys[0]
      && DateKey(Date(2023, 7, 2)) == keys[2]
      && RowName(keys, 0) == "2023-07-01.txt"
      && RowName(keys, 1) == "2023-07-01_2.txt"
      && RowName(keys, 2) == "2023-07-02.txt"
  {
    var keys := ["2023-07-01", "2023-07-01", "2023-07-02"];
    assert keys[..1] == ["2023-07-01"];
    assert keys[..2] == ["2023-07-01", "2023-07-01"];
    assert keys[..2][..1] == ["2023-07-01"];
    assert keys[..3] == keys;
    assert keys[..3][..2] == keys[..2];
    assert Dec(2) == "2";
  }
}
