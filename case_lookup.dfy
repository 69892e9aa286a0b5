/**
 * `GoogleServices.get_case_id_by_email` (utils.py:60-133): find the case id of a customer
 * from the master sheet, given the customer's email address.
 *
 * The sheet is what `get_all_values()` returns: a header row followed by data rows of
 * cell texts. A read of the sheet that raises is `Unreachable`.
 */
module CaseLookup {
  import opened Wrappers
  import opened Text

  /** The cells of the first worksheet, row by row; row 0 is the header row. */
  type Values = seq<seq<string>>

  /** The outcome of reading the master sheet: its values, or an exception from the sheet service. */
  datatype SheetRead = Unreachable | Read(values: Values)

  /** A Python dict from strings to strings, as its items in insertion order. */
  type Dict = seq<(string, string)>

  /** The keys of a dict, or of a sequence of items. */
  function Keys(d: Dict): set<string> {
    set i | 0 <= i < |d| :: d[i].0
  }

  predicate UniqueKeys(d: Dict) {
    forall i, j :: 0 <= i < j < |d| ==> d[i].0 != d[j].0
  }

  /** The place of key `k` in `d`, if it is there. */
  function KeyIndex(d: Dict, k: string): (r: Option<nat>)
    ensures r.None? <==> k !in Keys(d)
    ensures r.Some? ==> r.value < |d| && d[r.value].0 == k && forall j :: 0 <= j < r.value ==> d[j].0 != k
  {
    if d == [] then None
    else if d[0].0 == k then Some(0)
    else
      var r := KeyIndex(d[1..], k);
      assert forall i :: 1 <= i < |d| ==> d[i] == d[1..][i - 1];
      assert Keys(d) == {d[0].0} + Keys(d[1..]);
      match r
      case None => None
      case Some(i) => Some(i + 1)
  }

  /** `d[k] = v`: a key already present keeps its place and takes the new value; a new key goes last. */
  function Put(d: Dict, k: string, v: string): (r: Dict)
    requires UniqueKeys(d)
    ensures UniqueKeys(r)
    ensures Keys(r) == Keys(d) + {k}
    ensures k in Keys(d) ==> |r| == |d| && r[KeyIndex(d, k).value] == (k, v)
    ensures k !in Keys(d) ==> r == d + [(k, v)]
    ensures forall i :: 0 <= i < |d| && d[i].0 != k ==> r[i] == d[i]
  {
    match KeyIndex(d, k)
    case Some(i) =>
      var r := d[i := (k, v)];
      assert Keys(r) == Keys(d) by {
        assert forall j :: 0 <= j < |d| ==> r[j].0 == d[j].0;
      }
      r
    case None =>
      var r := d + [(k, v)];
      assert Keys(r) == Keys(d) + {k} by {
        assert forall j :: 0 <= j < |d| ==> r[j] == d[j];
        assert r[|d|].0 == k;
      }
      r
  }

  /** `dict(items)`: each key once, at the place of its first item, with the value of its last. */
  function DictOf(items: seq<(string, string)>): (r: Dict)
    ensures UniqueKeys(r)
    ensures Keys(r) == Keys(items)
  {
    if items == [] then []
    else
      var last := items[|items| - 1];
      var init := items[..|items| - 1];
      assert Keys(items) == Keys(init) + {last.0} by {
        assert forall i :: 0 <= i < |init| ==> items[i] == init[i];
      }
      Put(DictOf(init), last.0, last.1)
  }

  /** Item `j` is the last one with its key. */
  predicate LastWith(items: seq<(string, string)>, j: int) {
    0 <= j < |items| && forall j' :: j < j' < |items| ==> items[j'].0 != items[j].0
  }

  /** Adding an item keeps the first place of a key the earlier items have, and gives a new key
      the added item's place. */
  lemma KeyIndexPrefix(items: seq<(string, string)>, k: string)
    requires items != []
    ensures var init := items[..|items| - 1];
            k in Keys(init) ==> KeyIndex(items, k) == KeyIndex(init, k)
    ensures var init := items[..|items| - 1];
            k !in Keys(init) && items[|items| - 1].0 == k ==> KeyIndex(items, k) == Some(|init|)
  {
    var init := items[..|items| - 1];
    if k in Keys(init) {
      var b := KeyIndex(init, k).value;
      assert items[b] == init[b];
      assert k in Keys(items) by { assert items[b].0 in Keys(items); }
      var a := KeyIndex(items, k).value;
      assert a <= b;
      assert a < |init| && items[a] == init[a];
    } else if items[|items| - 1].0 == k {
      assert k in Keys(items) by { assert items[|items| - 1].0 in Keys(items); }
    }
  }

  /** Every entry of `r` is the last item of `items` with its key. */
  predicate LastValues(items: seq<(string, string)>, r: Dict) {
    forall i :: 0 <= i < |r| ==> exists j :: 0 <= j < |items| && LastWith(items, j) && r[i] == items[j]
  }

  /** The keys of `r` stand in the order of their first items in `items`. */
  predicate FirstOrder(items: seq<(string, string)>, r: Dict) {
    && (forall i :: 0 <= i < |r| ==> KeyIndex(items, r[i].0).Some?)
    && (forall i, i' :: 0 <= i < i' < |r| ==> KeyIndex(items, r[i].0).value < KeyIndex(items, r[i'].0).value)
  }

  /** The entry `Put` writes for a key already present sits where that key was. */
  lemma PutPresent(d: Dict, k: string, v: string, idx: nat)
    requires UniqueKeys(d) && KeyIndex(d, k) == Some(idx)
    ensures Put(d, k, v) == d[idx := (k, v)]
  {
  }

  lemma LastValuesPut(items: seq<(string, string)>, d: Dict)
    requires items != [] && UniqueKeys(d) && LastValues(items[..|items| - 1], d)
    ensures LastValues(items, Put(d, items[|items| - 1].0, items[|items| - 1].1))
  {
    var init, last := items[..|items| - 1], items[|items| - 1];
    var r := Put(d, last.0, last.1);
    assert LastWith(items, |items| - 1);
    forall i | 0 <= i < |r| && r[i] != last ensures exists j :: 0 <= j < |items| && LastWith(items, j) && r[i] == items[j] {
      assert i < |d| && r[i] == d[i] && d[i].0 != last.0 by {
        match KeyIndex(d, last.0)
        case Some(idx) => PutPresent(d, last.0, last.1, idx);
        case None =>
      }
      var j :| 0 <= j < |init| && LastWith(init, j) && d[i] == init[j];
      assert items[j] == init[j] && LastWith(items, j);
    }
  }

  /** Keys of `dict(init)` keep their first place when one more item is added. */
  lemma KeyIndexKept(items: seq<(string, string)>, d: Dict)
    requires items != [] && Keys(d) == Keys(items[..|items| - 1])
    ensures forall i :: 0 <= i < |d| ==> KeyIndex(items, d[i].0) == KeyIndex(items[..|items| - 1], d[i].0)
  {
    forall i | 0 <= i < |d| ensures KeyIndex(items, d[i].0) == KeyIndex(items[..|items| - 1], d[i].0) {
      assert d[i].0 in Keys(d);
      KeyIndexPrefix(items, d[i].0);
    }
  }

  lemma FirstOrderPut(items: seq<(string, string)>, d: Dict)
    requires items != [] && UniqueKeys(d) && Keys(d) == Keys(items[..|items| - 1]) && FirstOrder(items[..|items| - 1], d)
    ensures FirstOrder(items, Put(d, items[|items| - 1].0, items[|items| - 1].1))
  {
    var last := items[|items| - 1];
    var r := Put(d, last.0, last.1);
    KeyIndexKept(items, d);
    match KeyIndex(d, last.0)
    case Some(idx) =>
      PutPresent(d, last.0, last.1, idx);
      FirstOrderLift(items, d);
      FirstOrderRekey(items, d, r);
    case None =>
      KeyIndexPrefix(items, last.0);
      assert r == d + [last];
      FirstOrderSnoc(items, d);
  }

  lemma FirstOrderLift(items: seq<(string, string)>, d: Dict)
    requires items != [] && FirstOrder(items[..|items| - 1], d)
    requires forall i :: 0 <= i < |d| ==> KeyIndex(items, d[i].0) == KeyIndex(items[..|items| - 1], d[i].0)
    ensures FirstOrder(items, d)
  {
  }

  lemma FirstOrderRekey(items: seq<(string, string)>, d: Dict, r: Dict)
    requires FirstOrder(items, d) && |r| == |d|
    requires forall i :: 0 <= i < |d| ==> r[i].0 == d[i].0
    ensures FirstOrder(items, r)
  {
  }

  /** A key new to the items goes after every key before it. */
  lemma FirstOrderSnoc(items: seq<(string, string)>, d: Dict)
    requires items != [] && FirstOrder(items[..|items| - 1], d)
    requires KeyIndex(items, items[|items| - 1].0) == Some(|items| - 1)
    requires forall i :: 0 <= i < |d| ==> KeyIndex(items, d[i].0) == KeyIndex(items[..|items| - 1], d[i].0)
    ensures FirstOrder(items, d + [items[|items| - 1]])
  {
    FirstOrderLift(items, d);
    assert forall i :: 0 <= i < |d| ==> KeyIndex(items, d[i].0).value < |items| - 1;
    FirstOrderAppend(items, d, items[|items| - 1], |items| - 1);
  }

  lemma FirstOrderAppend(items: seq<(string, string)>, d: Dict, x: (string, string), n: nat)
    requires FirstOrder(items, d) && KeyIndex(items, x.0) == Some(n)
    requires forall i :: 0 <= i < |d| ==> KeyIndex(items, d[i].0).value < n
    ensures FirstOrder(items, d + [x])
  {
    var r := d + [x];
    assert forall i :: 0 <= i < |d| ==> r[i] == d[i];
    assert r[|d|] == x;
  }

  /** `dict(items)` in full: every key keeps the value of the last item with that key, and the
      keys stand in the order of their first items. */
  lemma DictOfSpec(items: seq<(string, string)>)
    ensures LastValues(items, DictOf(items))
    ensures FirstOrder(items, DictOf(items))
  {
    DictOfValues(items);
    DictOfOrder(items);
  }

  lemma {:induction false} DictOfValues(items: seq<(string, string)>)
    ensures LastValues(items, DictOf(items))
  {
    if items != [] {
      DictOfValues(items[..|items| - 1]);
      LastValuesPut(items, DictOf(items[..|items| - 1]));
    }
  }

  lemma {:induction false} DictOfOrder(items: seq<(string, string)>)
    ensures FirstOrder(items, DictOf(items))
  {
    if items != [] {
      DictOfOrder(items[..|items| - 1]);
      FirstOrderPut(items, DictOf(items[..|items| - 1]));
    }
  }

  /** A dict built from items whose keys are already distinct keeps the items as they are. */
  lemma {:induction false} DictOfUnique(items: seq<(string, string)>)
    requires UniqueKeys(items)
    ensures DictOf(items) == items
  {
    if items != [] {
      var last := items[|items| - 1];
      var init := items[..|items| - 1];
      DictOfUnique(init);
      assert last.0 !in Keys(init);
    }
  }

  /** The text of cell `k` of a row; a row shorter than the header reads as empty there. */
  function CellOr(row: seq<string>, k: nat): string {
    if k < |row| then row[k] else ""
  }

  /** `zip(header, row)`, with a row shorter than the header padded by empty cells. */
  function RowItems(header: seq<string>, row: seq<string>): seq<(string, string)> {
    seq(|header|, k requires 0 <= k < |header| => (header[k], CellOr(row, k)))
  }

  /** `get_all_records()`: every data row as a dict keyed by the header row. */
  function Records(values: Values): (r: seq<Dict>)
    requires values != []
    ensures |r| == |values| - 1
  {
    seq(|values| - 1, i requires 0 <= i < |values| - 1 => DictOf(RowItems(values[0], values[i + 1])))
  }

  /** The dict of one row has the header cells as its keys, and each key holds the row's cell in
      the last column carrying that header. */
  lemma RowRecordSpec(header: seq<string>, row: seq<string>)
    ensures var rec := DictOf(RowItems(header, row));
            && UniqueKeys(rec)
            && Keys(rec) == (set k | 0 <= k < |header| :: header[k])
            && forall p :: 0 <= p < |rec| ==>
                 exists k :: 0 <= k < |header| && rec[p] == (header[k], CellOr(row, k))
                             && forall k' :: k < k' < |header| ==> header[k'] != header[k]
  {
    var items := RowItems(header, row);
    assert Keys(items) == (set k | 0 <= k < |header| :: header[k]) by {
      assert forall k :: 0 <= k < |header| ==> items[k].0 == header[k];
    }
    RowRecordValues(header, row);
  }

  lemma RowRecordValues(header: seq<string>, row: seq<string>)
    ensures var rec := DictOf(RowItems(header, row));
            forall p :: 0 <= p < |rec| ==>
              exists k :: 0 <= k < |header| && rec[p] == (header[k], CellOr(row, k))
                          && forall k' :: k < k' < |header| ==> header[k'] != header[k]
  {
    var items := RowItems(header, row);
    var rec := DictOf(items);
    DictOfValues(items);
    forall p | 0 <= p < |rec|
      ensures exists k :: 0 <= k < |header| && rec[p] == (header[k], CellOr(row, k))
                          && forall k' :: k < k' < |header| ==> header[k'] != header[k]
    {
      var k :| 0 <= k < |items| && LastWith(items, k) && rec[p] == items[k];
      assert |items| == |header|;
      RowItemLast(header, row, k);
      assert rec[p] == (header[k], CellOr(row, k));
    }
  }

  /** The last item of a row with its key is the last column carrying that header. */
  lemma RowItemLast(header: seq<string>, row: seq<string>, k: int)
    requires 0 <= k < |header| && LastWith(RowItems(header, row), k)
    ensures RowItems(header, row)[k] == (header[k], CellOr(row, k))
    ensures forall k' :: k < k' < |header| ==> header[k'] != header[k]
  {
    var items := RowItems(header, row);
    forall k' | k < k' < |header| ensures header[k'] != header[k] {
      assert items[k'].0 == header[k'];
    }
  }

  /** Record `i` of `get_all_records()` is the dict of data row `i + 1` keyed by the header row, as
      `RowRecordSpec` describes it. */
  lemma RecordsSpec(values: Values, i: nat)
    requires values != [] && i < |values| - 1
    ensures var rec := Records(values)[i];
            && UniqueKeys(rec)
            && Keys(rec) == (set k | 0 <= k < |values[0]| :: values[0][k])
            && forall p :: 0 <= p < |rec| ==>
                 exists k :: 0 <= k < |values[0]| && rec[p] == (values[0][k], CellOr(values[i + 1], k))
                             && forall k' :: k < k' < |values[0]| ==> values[0][k'] != values[0][k]
  {
    var rec := Records(values)[i];
    assert rec == DictOf(RowItems(values[0], values[i + 1]));
    RowRecordSpec(values[0], values[i + 1]);
    assert Keys(rec) == (set k | 0 <= k < |values[0]| :: values[0][k]);
  }

  /** The items of a record with their keys lower-cased. */
  function LoweredItems(record: Dict): seq<(string, string)> {
    seq(|record|, i requires 0 <= i < |record| => (Lower(record[i].0), record[i].1))
  }

  /** `{k.lower(): v for k, v in record.items()}`. */
  function Lowered(record: Dict): (r: Dict)
    ensures UniqueKeys(r)
  {
    DictOf(LoweredItems(record))
  }

  /** The lowered record's keys are the lowered keys, and when lower-casing makes keys collide the
      value of the last of them wins. */
  lemma LoweredSpec(record: Dict)
    ensures var r := Lowered(record);
            && Keys(r) == (set i | 0 <= i < |record| :: Lower(record[i].0))
            && forall p :: 0 <= p < |r| ==>
                 exists j :: 0 <= j < |record| && r[p] == (Lower(record[j].0), record[j].1)
                             && forall j' :: j < j' < |record| ==> Lower(record[j'].0) != r[p].0
  {
    var items := LoweredItems(record);
    assert Keys(items) == (set i | 0 <= i < |record| :: Lower(record[i].0)) by {
      assert forall i :: 0 <= i < |record| ==> items[i].0 == Lower(record[i].0);
    }
    LoweredValues(record);
  }

  lemma LoweredValues(record: Dict)
    ensures var r := Lowered(record);
            forall p :: 0 <= p < |r| ==>
              exists j :: 0 <= j < |record| && r[p] == (Lower(record[j].0), record[j].1)
                          && forall j' :: j < j' < |record| ==> Lower(record[j'].0) != r[p].0
  {
    var items := LoweredItems(record);
    var r := Lowered(record);
    DictOfValues(items);
    forall p | 0 <= p < |r|
      ensures exists j :: 0 <= j < |record| && r[p] == (Lower(record[j].0), record[j].1)
                          && forall j' :: j < j' < |record| ==> Lower(record[j'].0) != r[p].0
    {
      var j :| 0 <= j < |items| && LastWith(items, j) && r[p] == items[j];
      LoweredItemLast(record, j);
      assert r[p] == (Lower(record[j].0), record[j].1);
    }
  }

  /** The last lowered item with its key is the last key of the record that lowers to it. */
  lemma LoweredItemLast(record: Dict, j: int)
    requires 0 <= j < |record| && LastWith(LoweredItems(record), j)
    ensures LoweredItems(record)[j] == (Lower(record[j].0), record[j].1)
    ensures forall j' :: j < j' < |record| ==> Lower(record[j'].0) != Lower(record[j].0)
  {
    var items := LoweredItems(record);
    forall j' | j < j' < |record| ensures Lower(record[j'].0) != Lower(record[j].0) {
      assert items[j'].0 == Lower(record[j'].0);
    }
  }

  /** How an email address is compared: `s.strip().lower()`. */
  function Canon(s: string): string {
    Lower(Strip(s))
  }

  predicate IsEmailKey(k: string) {
    Contains(k, "email") || Contains(k, "信箱")
  }

  predicate IsCaseKey(k: string) {
    Contains(k, "案件編號") || Contains(k, "case")
  }

  /** An item of a normalised record that holds the address `email`. */
  predicate EmailItem(item: (string, string), email: string) {
    IsEmailKey(item.0) && Canon(item.1) == Canon(email)
  }

  /** The `found_email` flag of one normalised record. */
  predicate EmailFound(n: Dict, email: string) {
    n != [] && (EmailItem(n[0], email) || EmailFound(n[1..], email))
  }

  /** `found_email` is set exactly when some item of the record holds the address. */
  lemma {:induction false} EmailFoundSpec(n: Dict, email: string)
    ensures EmailFound(n, email) <==> exists i :: 0 <= i < |n| && EmailItem(n[i], email)
  {
    if n != [] {
      EmailFoundSpec(n[1..], email);
      assert forall i :: 1 <= i < |n| ==> n[i] == n[1..][i - 1];
    }
  }

  /** The value of the first item whose key names a case id, if any. */
  function FirstCaseValue(n: Dict): (r: Option<string>)
    ensures r.None? <==> forall i :: 0 <= i < |n| ==> !IsCaseKey(n[i].0)
    ensures r.Some? ==> exists i :: 0 <= i < |n| && IsCaseKey(n[i].0) && r.value == n[i].1
                                  && forall j :: 0 <= j < i ==> !IsCaseKey(n[j].0)
  {
    if n == [] then None
    else if IsCaseKey(n[0].0) then Some(n[0].1)
    else
      var r := FirstCaseValue(n[1..]);
      assert forall i :: 1 <= i < |n| ==> n[i] == n[1..][i - 1];
      r
  }

  /** What one normalised record contributes: its case id when its email matches and it names a case id. */
  function RecordCaseId(n: Dict, email: string): Option<string> {
    if EmailFound(n, email) then FirstCaseValue(n) else None
  }

  /** The records with their keys lower-cased, in sheet order. */
  function NormalisedRecords(values: Values): (r: seq<Dict>)
    requires values != []
    ensures |r| == |values| - 1
  {
    var records := Records(values);
    seq(|records|, i requires 0 <= i < |records| => Lowered(records[i]))
  }

  /** Some record contributes the case id `v`. */
  predicate Yields(records: seq<Dict>, email: string, v: string) {
    exists i :: 0 <= i < |records| && RecordCaseId(records[i], email) == Some(v)
  }

  /** The scan of lines 113-128: the first record that contributes a case id wins. */
  function FirstCaseId(records: seq<Dict>, email: string): (r: Option<string>)
    ensures r.Some? ==> Yields(records, email, r.value)
  {
    if records == [] then None
    else if RecordCaseId(records[0], email).Some? then RecordCaseId(records[0], email)
    else
      var r := FirstCaseId(records[1..], email);
      assert forall i :: 1 <= i < |records| ==> records[i] == records[1..][i - 1];
      r
  }

  /** Some cell, header included, is exactly `email`. */
  predicate SomeCellIs(values: Values, email: string) {
    exists r, c :: 0 <= r < |values| && 0 <= c < |values[r]| && values[r][c] == email
  }

  /** The first column of `row` whose cell is exactly `email`. */
  function FindInRow(row: seq<string>, email: string): (r: Option<nat>)
    ensures r.None? <==> forall c :: 0 <= c < |row| ==> row[c] != email
    ensures r.Some? ==> r.value < |row| && row[r.value] == email
                        && forall c :: 0 <= c < r.value ==> row[c] != email
  {
    if row == [] then None
    else if row[0] == email then Some(0)
    else
      var r := FindInRow(row[1..], email);
      assert forall c :: 1 <= c < |row| ==> row[c] == row[1..][c - 1];
      match r
      case None => None
      case Some(c) => Some(c + 1)
  }

  /** `worksheet.find(email)`: the first cell, row by row and then column by column, whose text is
      exactly `email` (case-sensitive, whole cell), as (row, column); None when there is none. */
  function FindCell(values: Values, email: string): (r: Option<(nat, nat)>)
    ensures r.None? <==> !SomeCellIs(values, email)
    ensures r.Some? ==> r.value.0 < |values| && r.value.1 < |values[r.value.0]|
                        && values[r.value.0][r.value.1] == email
                        && (forall c :: 0 <= c < r.value.1 ==> values[r.value.0][c] != email)
                        && forall q :: 0 <= q < r.value.0 ==> FindInRow(values[q], email).None?
  {
    if values == [] then None
    else
      match FindInRow(values[0], email)
      case Some(c) => Some((0, c))
      case None =>
        var r := FindCell(values[1..], email);
        assert forall q :: 1 <= q < |values| ==> values[q] == values[1..][q - 1];
        assert SomeCellIs(values, email) <==> SomeCellIs(values[1..], email) by {
          if SomeCellIs(values, email) {
            var q, c :| 0 <= q < |values| && 0 <= c < |values[q]| && values[q][c] == email;
            assert q > 0;
            assert values[1..][q - 1][c] == email;
          }
          if SomeCellIs(values[1..], email) {
            var q, c :| 0 <= q < |values[1..]| && 0 <= c < |values[1..][q]| && values[1..][q][c] == email;
            assert values[q + 1][c] == email;
          }
        }
        match r
        case None => None
        case Some(cell) => Some((cell.0 + 1, cell.1))
  }

  /** The value `get_case_id_by_email` returns. */
  function LookupCaseId(read: SheetRead, email: string): (r: Option<string>)
    ensures r.Some? ==> && read.Read? && read.values != [] && SomeCellIs(read.values, email)
                        && Yields(NormalisedRecords(read.values), email, r.value)
  {
    match read
    case Unreachable => None
    case Read(values) =>
      if values == [] then None
      else if FindCell(values, email).None? then None
      else FirstCaseId(NormalisedRecords(values), email)
  }

  /** Record `i` is the first one that contributes a case id. */
  predicate FirstContributor(records: seq<Dict>, email: string, i: int) {
    0 <= i < |records| && RecordCaseId(records[i], email).Some?
    && forall j :: 0 <= j < i ==> RecordCaseId(records[j], email).None?
  }

  /** The scan finds nothing exactly when no record contributes a case id. */
  lemma {:induction false} FirstCaseIdNone(records: seq<Dict>, email: string)
    ensures FirstCaseId(records, email).None? <==>
              forall i :: 0 <= i < |records| ==> RecordCaseId(records[i], email).None?
  {
    if records != [] {
      FirstCaseIdNone(records[1..], email);
      assert forall i :: 1 <= i < |records| ==> records[i] == records[1..][i - 1];
    }
  }

  /** The scan returns `v` exactly when the first contributing record contributes `v`. */
  lemma {:induction false} FirstCaseIdSome(records: seq<Dict>, email: string, v: string)
    ensures FirstCaseId(records, email) == Some(v) <==>
              exists i :: FirstContributor(records, email, i) && RecordCaseId(records[i], email) == Some(v)
  {
    if records != [] {
      var tail := records[1..];
      FirstCaseIdSome(tail, email, v);
      if RecordCaseId(records[0], email).Some? {
        assert FirstContributor(records, email, 0);
        forall i | FirstContributor(records, email, i) ensures i == 0 {}
      } else {
        if FirstCaseId(records, email) == Some(v) {
          var i :| FirstContributor(tail, email, i) && RecordCaseId(tail[i], email) == Some(v);
          assert forall j :: 0 < j <= i ==> records[j] == tail[j - 1];
          assert FirstContributor(records, email, i + 1);
        }
        if exists i :: FirstContributor(records, email, i) && RecordCaseId(records[i], email) == Some(v) {
          var i :| FirstContributor(records, email, i) && RecordCaseId(records[i], email) == Some(v);
          assert i > 0;
          assert forall j :: 0 <= j < i - 1 ==> tail[j] == records[j + 1];
          assert FirstContributor(tail, email, i - 1);
        }
      }
    }
  }

  /** The four ways the lookup yields None: the sheet raised, it is empty, no cell is exactly
      the email, or no record both matches the email and names a case id. */
  lemma LookupNoneCases(read: SheetRead, email: string)
    ensures LookupCaseId(read, email).None? <==>
              || read.Unreachable?
              || read.values == []
              || !SomeCellIs(read.values, email)
              || forall i :: 0 <= i < |NormalisedRecords(read.values)| ==>
                               RecordCaseId(NormalisedRecords(read.values)[i], email).None?
  {
    if read.Read? && read.values != [] {
      FirstCaseIdNone(NormalisedRecords(read.values), email);
    }
  }

  /** A returned case id is the first case-id value of the first record whose email item matches
      after trimming and lower-casing and which names a case id. */
  lemma LookupSomeCharacterised(values: Values, email: string, v: string)
    ensures LookupCaseId(Read(values), email) == Some(v) <==>
              && values != []
              && SomeCellIs(values, email)
              && exists i :: FirstContributor(NormalisedRecords(values), email, i)
                             && EmailFound(NormalisedRecords(values)[i], email)
                             && FirstCaseValue(NormalisedRecords(values)[i]) == Some(v)
  {
    if values != [] {
      FirstCaseIdSome(NormalisedRecords(values), email, v);
    }
  }

  /** Lines 118-122: the `found_email` scan of one normalised record. */
  method ScanEmail(normalized: Dict, email: string) returns (found: bool)
    ensures found == EmailFound(normalized, email)
  {
    found := false;
    var j := 0;
    while j < |normalized|
      invariant 0 <= j <= |normalized|
      invariant EmailFound(normalized, email) == EmailFound(normalized[j..], email)
    {
      assert normalized[j..][1..] == normalized[j + 1..];
      if EmailItem(normalized[j], email) {
        return true;
      }
      j := j + 1;
    }
  }

  /** Lines 124-128: the value of the first case-id key of one normalised record. */
  method ScanCase(normalized: Dict) returns (r: Option<string>)
    ensures r == FirstCaseValue(normalized)
  {
    var j := 0;
    while j < |normalized|
      invariant 0 <= j <= |normalized|
      invariant FirstCaseValue(normalized) == FirstCaseValue(normalized[j..])
    {
      assert normalized[j..][1..] == normalized[j + 1..];
      if IsCaseKey(normalized[j].0) {
        return Some(normalized[j].1);
      }
      j := j + 1;
    }
    return None;
  }

  /** Lines 118-128 for one normalised record: set `found_email` by scanning for an email item,
      then return the value of the first case-id key. */
  method ScanRecord(normalized: Dict, email: string) returns (r: Option<string>)
    ensures r == RecordCaseId(normalized, email)
  {
    var foundEmail := ScanEmail(normalized, email);
    if foundEmail {
      r := ScanCase(normalized);
    } else {
      r := None;
    }
  }

  /** `get_case_id_by_email`: the header scan of lines 76-97 only feeds a log message and is not modelled. */
  method GetCaseIdByEmail(read: SheetRead, email: string) returns (r: Option<string>)
    ensures r == LookupCaseId(read, email)
  {
    if read.Unreachable? {
      return None;
    }
    var values := read.values;
    if values == [] {
      return None;
    }
    var cell := FindCell(values, email);
    if cell.None? {
      return None;
    }
    var records := Records(values);
    ghost var normalisedRecords := NormalisedRecords(values);
    ghost var spec := FirstCaseId(normalisedRecords, email);
    assert LookupCaseId(read, email) == spec;
    var i := 0;
    while i < |records|
      invariant 0 <= i <= |records|
      invariant FirstCaseId(normalisedRecords[i..], email) == spec
    {
      var normalized := Lowered(records[i]);
      assert normalized == normalisedRecords[i];
      assert normalisedRecords[i..][0] == normalized;
      assert normalisedRecords[i..][1..] == normalisedRecords[i + 1..];
      var found := ScanRecord(normalized, email);
      if found.Some? {
        return found;
      }
      i := i + 1;
    }
    return None;
  }

  // The exact-match gate of line 100 defeats the normalised comparison of line 120.

  /** The lookup without the `worksheet.find` gate: the case-insensitive, trimmed match alone. */
  function LookupCaseIdIntended(read: SheetRead, email: string): (r: Option<string>)
    ensures r.Some? ==> && read.Read? && read.values != []
                        && Yields(NormalisedRecords(read.values), email, r.value)
  {
    match read
    case Unreachable => None
    case Read(values) => if values == [] then None else FirstCaseId(NormalisedRecords(values), email)
  }

  lemma {:induction false} EmailFoundCanonical(n: Dict, e1: string, e2: string)
    requires Canon(e1) == Canon(e2)
    ensures EmailFound(n, e1) == EmailFound(n, e2)
  {
    if n != [] {
      EmailFoundCanonical(n[1..], e1, e2);
    }
  }

  /** The scan depends on the email only through its trimmed, lower-cased form. */
  lemma {:induction false} FirstCaseIdCanonical(records: seq<Dict>, e1: string, e2: string)
    requires Canon(e1) == Canon(e2)
    ensures FirstCaseId(records, e1) == FirstCaseId(records, e2)
  {
    if records != [] {
      EmailFoundCanonical(records[0], e1, e2);
      FirstCaseIdCanonical(records[1..], e1, e2);
    }
  }

  /** The intended lookup does not see case or surrounding whitespace in the input. */
  lemma IntendedLookupIgnoresCaseAndSpace(read: SheetRead, e1: string, e2: string)
    requires Canon(e1) == Canon(e2)
    ensures LookupCaseIdIntended(read, e1) == LookupCaseIdIntended(read, e2)
  {
    if read.Read? && read.values != [] {
      FirstCaseIdCanonical(NormalisedRecords(read.values), e1, e2);
    }
  }

  /** The code as written is the intended lookup behind the exact-match gate. */
  lemma LookupIsGatedIntended(read: SheetRead, email: string)
    ensures LookupCaseId(read, email) ==
              if read.Read? && !SomeCellIs(read.values, email) then None
              else LookupCaseIdIntended(read, email)
  {
  }

  /** A sheet with one customer, "a@x.com" of case "NIKE_2024". */
  const ExampleSheet: Values := [["Email", "Case ID"], ["a@x.com", "NIKE_2024"]]

  /** The stored form of the address finds the case. */
  lemma ExampleExactAddress()
    ensures LookupCaseId(Read(ExampleSheet), "a@x.com") == Some("NIKE_2024")
  {
    assert ExampleSheet[1][0] == "a@x.com";
    assert SomeCellIs(ExampleSheet, "a@x.com");
    ExampleRecordMatches("a@x.com");
  }

  /** As written, the same address in capitals with a trailing space is not found. */
  lemma ExampleMixedCaseMissed()
    ensures Canon("A@X.com ") == Canon("a@x.com")
    ensures LookupCaseId(Read(ExampleSheet), "A@X.com ") == None
  {
    ExampleCanon();
    ExampleNoExactCell();
  }

  /** No cell of the example sheet is exactly "A@X.com ". */
  lemma ExampleNoExactCell()
    ensures FindCell(ExampleSheet, "A@X.com ").None?
  {
    forall r, c | 0 <= r < |ExampleSheet| && 0 <= c < |ExampleSheet[r]|
      ensures ExampleSheet[r][c] != "A@X.com "
    {
      assert ExampleSheet[r][c][0] != 'A';
    }
  }

  /** The intended lookup finds the case for that address. */
  lemma ExampleMixedCaseIntended()
    ensures LookupCaseIdIntended(Read(ExampleSheet), "A@X.com ") == Some("NIKE_2024")
  {
    ExampleCanon();
    ExampleRecordMatches("A@X.com ");
  }

  lemma ExampleCanon()
    ensures Canon("A@X.com ") == "a@x.com" == Canon("a@x.com")
  {
    assert StripLeading("A@X.com ") == "A@X.com ";
    assert StripTrailing("A@X.com ") == "A@X.com";
    assert StripLeading("a@x.com") == "a@x.com";
    assert StripTrailing("a@x.com") == "a@x.com";
  }

  lemma ExampleRecords()
    ensures Records(ExampleSheet) == [[("Email", "a@x.com"), ("Case ID", "NIKE_2024")]]
  {
    var items := RowItems(ExampleSheet[0], ExampleSheet[1]);
    assert items[0] == ("Email", "a@x.com") && items[1] == ("Case ID", "NIKE_2024");
    var pairs: Dict := [("Email", "a@x.com"), ("Case ID", "NIKE_2024")];
    assert items == pairs;
    assert "Email"[0] != "Case ID"[0];
    DictOfUnique(pairs);
    var records := Records(ExampleSheet);
    assert |records| == 1 && records[0] == DictOf(items);
  }

  lemma ExampleNormalised()
    ensures NormalisedRecords(ExampleSheet) == [[("email", "a@x.com"), ("case id", "NIKE_2024")]]
  {
    ExampleRecords();
    ExampleLowered();
    NormalisedSingle(ExampleSheet);
  }

  lemma NormalisedSingle(values: Values)
    requires |values| == 2
    ensures NormalisedRecords(values) == [Lowered(Records(values)[0])]
  {
    var normalised := NormalisedRecords(values);
    assert |normalised| == 1 && normalised[0] == Lowered(Records(values)[0]);
  }

  lemma ExampleLowered()
    ensures Lowered([("Email", "a@x.com"), ("Case ID", "NIKE_2024")]) == [("email", "a@x.com"), ("case id", "NIKE_2024")]
  {
    var rec: Dict := [("Email", "a@x.com"), ("Case ID", "NIKE_2024")];
    var items := LoweredItems(rec);
    ExampleLowerKeys();
    var pairs: Dict := [("email", "a@x.com"), ("case id", "NIKE_2024")];
    assert items[0] == pairs[0] && items[1] == pairs[1];
    assert items == pairs;
    assert "email"[0] != "case id"[0];
    DictOfUnique(pairs);
  }

  lemma ExampleLowerKeys()
    ensures Lower("Email") == "email" && Lower("Case ID") == "case id"
  {
    ExampleLowerEmail();
    ExampleLowerCaseId();
  }

  lemma ExampleLowerEmail()
    ensures Lower("Email") == "email"
  {
    assert LowerChar('E') == 'e';
    assert Lower("") == "";
    assert Lower("l") == "l" && Lower("il") == "il" && Lower("ail") == "ail" && Lower("mail") == "mail";
  }

  lemma ExampleLowerCaseId()
    ensures Lower("Case ID") == "case id"
  {
    assert LowerChar('C') == 'c' && LowerChar('I') == 'i' && LowerChar('D') == 'd';
    assert Lower("") == "";
    assert Lower("D") == "d" && Lower("ID") == "id" && Lower(" ID") == " id" && Lower("e ID") == "e id";
    assert Lower("se ID") == "se id" && Lower("ase ID") == "ase id";
  }

  lemma ExampleKeys()
    ensures IsEmailKey("email") && !IsCaseKey("email") && IsCaseKey("case id")
  {
    assert "email" <= "email";
    assert "email"[0] != "case"[0] && "email"[0] != "案件編號"[0];
    assert "mail"[0] != "case"[0];
    assert "case" <= "case id";
  }

  lemma ExampleRecordMatches(email: string)
    requires Canon(email) == "a@x.com"
    ensures FirstCaseId(NormalisedRecords(ExampleSheet), email) == Some("NIKE_2024")
  {
    ExampleCanon();
    ExampleNormalised();
    var n: Dict := [("email", "a@x.com"), ("case id", "NIKE_2024")];
    assert EmailItem(n[0], email);
    ExampleKeys();
    assert RecordCaseId(n, email) == Some("NIKE_2024");
  }
}
