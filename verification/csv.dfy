/** `read_csv_data`: choose the delimiter from the first kilobyte of the file,
    then clean every key and value of every record the CSV tokenizer yields. */
module Csv {
  import opened Text
  import opened Values

  /** What opening and decoding the file produced. */
  datatype Source = Missing | Unreadable | Contents(text: string)

  /** One record as the CSV tokenizer hands it over: the items of the dict it
      yields, in that dict's order (a header that occurs twice is one item, at
      its first position, holding the value of its last occurrence), a value
      being absent when the line was short; and, when the line was longer
      than the header, the surplus values, which the tokenizer files under a
      key that is not a string. */
  datatype RawRow = RawRow(fields: seq<(string, Option<string>)>, overflow: Option<seq<string>>)

  /** The CSV tokenizer, given the whole text and the delimiter. */
  type Tokenizer = (string, char) -> seq<RawRow>

  /** How many characters are read to choose the delimiter. */
  const SampleSize: nat := 1024

  function Sample(text: string): (s: string)
    ensures |s| <= SampleSize && |s| <= |text| && s == text[..|s|]
    ensures |text| >= SampleSize ==> |s| == SampleSize
  {
    if |text| <= SampleSize then text else text[..SampleSize]
  }

  /** The delimiter: a tab if the sample holds one, a comma otherwise. */
  function Delimiter(text: string): (d: char)
    ensures d == '\t' || d == ','
    ensures d == '\t' <==> exists k | 0 <= k < |text| && k < SampleSize :: text[k] == '\t'
  {
    var s := Sample(text);
    assert forall k | 0 <= k < |s| :: s[k] == text[k];
    if '\t' in s then '\t' else ','
  }

  /** Only the first `SampleSize` characters choose the delimiter: whatever
      follows them cannot change it. */
  lemma DelimiterIgnoresTail(head: string, tail: string)
    requires |head| >= SampleSize
    ensures Delimiter(head + tail) == Delimiter(head)
  {
    assert Sample(head + tail) == Sample(head);
  }

  /** `value.strip().strip('"').strip("'")`. */
  function CleanValue(v: string): (r: string)
    ensures IsSlice(r, v)
    ensures Bare(r, {'\''})
  {
    CleanValueIsSlice(v);
    StripSpec(Strip(Strip(v, Whitespace), {'"'}), {'\''});
    Strip(Strip(Strip(v, Whitespace), {'"'}), {'\''})
  }

  lemma CleanValueIsSlice(v: string)
    ensures IsSlice(Strip(Strip(Strip(v, Whitespace), {'"'}), {'\''}), v)
  {
    var a := Strip(v, Whitespace);
    var b := Strip(a, {'"'});
    StripIsSlice(v, Whitespace);
    StripIsSlice(a, {'"'});
    StripIsSlice(b, {'\''});
    SliceTransitive(b, a, v);
    SliceTransitive(Strip(b, {'\''}), b, v);
  }

  /** A cleaned value: `None` stays `None`. */
  function CleanCell(v: Option<string>): (c: Value)
    ensures v.None? <==> c == Null
  {
    match v
    case None => Null
    case Some(s) => Str(CleanValue(s))
  }

  function CleanKey(k: string): (r: string)
    ensures Bare(r, Whitespace)
  {
    StripSpec(k, Whitespace);
    Strip(k, Whitespace)
  }

  /** Each (header, value) pair with its key stripped and its value cleaned. */
  function CleanPairs(fields: seq<(string, Option<string>)>): (pairs: seq<(string, Value)>)
    ensures |pairs| == |fields|
  {
    seq(|fields|, k requires 0 <= k < |fields| => (CleanKey(fields[k].0), CleanCell(fields[k].1)))
  }

  /** The cleaned dict of one record: each pair stores its cleaned value under
      its stripped key, a later pair overwriting an earlier one whose key
      strips to the same string. */
  function CleanRow(fields: seq<(string, Option<string>)>): Record {
    Assign(CleanPairs(fields))
  }

  /** The keys of a cleaned record are exactly the stripped header names. */
  lemma CleanRowKeys(fields: seq<(string, Option<string>)>)
    ensures CleanRow(fields).Keys == set k | 0 <= k < |fields| :: CleanKey(fields[k].0)
  {
    var pairs := CleanPairs(fields);
    AssignKeys(pairs);
    assert forall k | 0 <= k < |fields| :: pairs[k].0 == CleanKey(fields[k].0);
  }

  /** The value under a stripped key is the cleaned value of the last pair
      whose key strips to it. */
  lemma CleanRowAt(fields: seq<(string, Option<string>)>, i: int)
    requires 0 <= i < |fields|
    requires forall j | i < j < |fields| :: CleanKey(fields[j].0) != CleanKey(fields[i].0)
    ensures CleanKey(fields[i].0) in CleanRow(fields)
    ensures CleanRow(fields)[CleanKey(fields[i].0)] == CleanCell(fields[i].1)
  {
    AssignAt(CleanPairs(fields), i);
  }

  /** Every key of a cleaned record starts and ends with a non-space; every
      value is `None` (the pair had no value) or a piece of some raw value
      that neither starts nor ends with `'`. */
  lemma CleanRowShape(fields: seq<(string, Option<string>)>)
    ensures forall key | key in CleanRow(fields) :: Bare(key, Whitespace)
    ensures forall key | key in CleanRow(fields) ::
      match CleanRow(fields)[key]
      case Str(v) => Bare(v, {'\''}) && exists k | 0 <= k < |fields| :: fields[k].1.Some? && IsSlice(v, fields[k].1.value)
      case Null => exists k | 0 <= k < |fields| :: fields[k].1.None?
      case Int(_) => false
  {
    var pairs := CleanPairs(fields);
    AssignEntries(pairs);
    forall key | key in CleanRow(fields)
      ensures Bare(key, Whitespace)
      ensures match CleanRow(fields)[key]
        case Str(v) => Bare(v, {'\''}) && exists k | 0 <= k < |fields| :: fields[k].1.Some? && IsSlice(v, fields[k].1.value)
        case Null => exists k | 0 <= k < |fields| :: fields[k].1.None?
        case Int(_) => false
    {
      var k :| 0 <= k < |pairs| && pairs[k] == (key, CleanRow(fields)[key]);
      assert key == CleanKey(fields[k].0) && CleanRow(fields)[key] == CleanCell(fields[k].1);
    }
  }

  /** The records `read_csv_data` returns. */
  function Records(source: Source, tokenize: Tokenizer): (data: seq<Record>)
  {
    match source
    case Missing => []
    case Unreadable => []
    case Contents(text) =>
      var rows := tokenize(text, Delimiter(text));
      if exists k | 0 <= k < |rows| :: rows[k].overflow.Some? then []
      else seq(|rows|, k requires 0 <= k < |rows| => CleanRow(rows[k].fields))
  }

  /** The inner loop of `read_csv_data`: fill a fresh dict from the pairs of
      one record, in order. */
  method CleanFields(fields: seq<(string, Option<string>)>) returns (cleaned: Record)
    ensures cleaned.Keys == set k | 0 <= k < |fields| :: CleanKey(fields[k].0)
    ensures cleaned == CleanRow(fields)
  {
    cleaned := map[];
    for f := 0 to |fields|
      invariant cleaned == Assign(CleanPairs(fields)[..f])
    {
      var key, value := fields[f].0, fields[f].1;
      if value.Some? {
        cleaned := cleaned[CleanKey(key) := Str(CleanValue(value.value))];
      } else {
        cleaned := cleaned[CleanKey(key) := Null];
      }
      AssignNext(CleanPairs(fields), f);
    }
    assert CleanPairs(fields)[..|fields|] == CleanPairs(fields);
    CleanRowKeys(fields);
  }

  /** `read_csv_data`. A missing or unreadable file gives no records; a line
      with surplus values makes the cleaning raise, which also gives no
      records; otherwise one cleaned record per tokenized line, in order. */
  method ReadCsvData(source: Source, tokenize: Tokenizer) returns (data: seq<Record>)
    ensures !source.Contents? ==> data == []
    ensures source.Contents? ==>
      var rows := tokenize(source.text, Delimiter(source.text));
      if exists k | 0 <= k < |rows| :: rows[k].overflow.Some? then data == []
      else |data| == |rows| && forall k | 0 <= k < |rows| :: data[k] == CleanRow(rows[k].fields)
    ensures data == Records(source, tokenize)
  {
    if !source.Contents? {
      return [];
    }
    var text := source.text;
    var delimiter := Delimiter(text);
    var rows := tokenize(text, delimiter);
    data := [];
    var n := 0;
    while n < |rows|
      invariant 0 <= n <= |rows|
      invariant |data| == n
      invariant forall k | 0 <= k < n :: data[k] == CleanRow(rows[k].fields) && rows[k].overflow.None?
    {
      var row := rows[n];
      var cleaned := CleanFields(row.fields);
      if row.overflow.Some? {
        // The surplus values come as a list, which has no strip(): the
        // exception is caught and the whole read yields nothing.
        return [];
      }
      data := data + [cleaned];
      n := n + 1;
    }
  }
}
