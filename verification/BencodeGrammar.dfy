/** The strings the parser accepts, as a grammar: with stoll's leniency in every number, keys in any
    order and repeated. */
module BencodeGrammar {
  import opened Bytes
  import opened Decimal
  import opened Bencode
  import opened BencodeRoundTrip

  /** How a value is written: the text of each number, and the entries of a dictionary as they stand. */
  datatype Writing =
    | Number(text: bytes)
    | Chars(size: bytes, s: bytes)
    | Items(items: seq<Writing>)
    | Fields(fields: seq<Field>)

  datatype Field = Field(size: bytes, key: bytes, value: Writing)

  // ----- The bytes -----

  function Print(w: Writing): bytes {
    match w
    case Number(text) => Text("i") + text + Text("e")
    case Chars(size, s) => size + Text(":") + s
    case Items(items) => Text("l") + PrintItems(items) + Text("e")
    case Fields(fields) => Text("d") + PrintFields(fields) + Text("e")
  }

  function PrintItems(items: seq<Writing>): bytes {
    if |items| == 0 then [] else Print(items[0]) + PrintItems(items[1..])
  }

  function PrintFields(fields: seq<Field>): bytes {
    if |fields| == 0 then [] else PrintField(fields[0]) + PrintFields(fields[1..])
  }

  function PrintField(f: Field): bytes {
    f.size + Text(":") + f.key + Print(f.value)
  }

  // ----- Which writings are proper -----

  /** A number's text ends at the first 'e' and is accepted by stoll. */
  predicate IsNumber(text: bytes) {
    'e' as int !in text && Stoll(text).Some?
  }

  /** A size ends at the first colon, and stoll reads from it how many bytes follow. */
  predicate IsSize(size: bytes, s: bytes) {
    ':' as int !in size && Stoll(size) == Some(|s|)
  }

  /** Any byte but an 'e' can begin a key, whose first byte is not looked at; a string needs a digit. */
  predicate Proper(w: Writing) {
    match w
    case Number(text) => IsNumber(text)
    case Chars(size, s) => IsSize(size, s) && |size| > 0 && IsDigit(size[0])
    case Items(items) => ProperItems(items)
    case Fields(fields) => ProperFields(fields)
  }

  predicate ProperItems(items: seq<Writing>) {
    |items| == 0 || (Proper(items[0]) && ProperItems(items[1..]))
  }

  predicate ProperFields(fields: seq<Field>) {
    |fields| == 0 || (ProperField(fields[0]) && ProperFields(fields[1..]))
  }

  predicate ProperField(f: Field) {
    IsSize(f.size, f.key) && |f.size| > 0 && f.size[0] != 'e' as int && Proper(f.value)
  }

  // ----- What they mean -----

  function Meaning(w: Writing): Value
    requires Proper(w)
  {
    match w
    case Number(text) => Int(Stoll(text).value)
    case Chars(_, s) => Str(s)
    case Items(items) => List(Meanings(items))
    case Fields(fields) => Dict(FromEntries(Entries(fields)))
  }

  function Meanings(items: seq<Writing>): seq<Value>
    requires ProperItems(items)
  {
    if |items| == 0 then [] else [Meaning(items[0])] + Meanings(items[1..])
  }

  function Entries(fields: seq<Field>): seq<Entry>
    requires ProperFields(fields)
  {
    if |fields| == 0 then [] else [EntryOf(fields[0])] + Entries(fields[1..])
  }

  function EntryOf(f: Field): Entry
    requires ProperField(f)
  {
    Entry(f.key, Meaning(f.value))
  }

  // ----- Everything in the grammar is accepted -----

  lemma Letters()
    ensures Text("i") == [CHAR_I] && Text("l") == [CHAR_L] && Text("d") == [CHAR_D] && Text("e") == [CHAR_E]
    ensures Text(":") == [COLON]
  {
  }

  lemma PrintBegins(w: Writing)
    requires Proper(w)
    ensures |Print(w)| > 0 && Print(w)[0] != CHAR_E
  {
    Letters();
  }

  lemma NumberParses(text: bytes, rest: bytes)
    requires IsNumber(text)
    ensures ParseValue(Print(Number(text)) + rest) == Ok(Int(Stoll(text).value), |Print(Number(text))|)
  {
    Letters();
    var s := Print(Number(text)) + rest;
    FindAfter(text, CHAR_E, rest);
    assert s[1..] == text + [CHAR_E] + rest && s[1..1 + |text|] == text;
  }

  lemma SizedParses(size: bytes, str: bytes, rest: bytes)
    requires IsSize(size, str)
    ensures ParseString(size + Text(":") + str + rest) == Ok(str, |size + Text(":") + str|)
  {
    Letters();
    var s := size + Text(":") + str + rest;
    FindAfter(size, COLON, str + rest);
    assert s == size + [COLON] + (str + rest);
    assert s[..|size|] == size && s[|size| + 1..|size| + 1 + |str|] == str;
  }

  /** Whatever is written in the grammar, and whatever follows, the parser takes all of it and returns
      what it means. */
  lemma {:induction false} WritingParses(w: Writing, rest: bytes)
    requires Proper(w)
    ensures ParseValue(Print(w) + rest) == Ok(Meaning(w), |Print(w)|)
    decreases w, 1
  {
    hide ParseItems, ParseEntries, ParseString, PrintItems, PrintFields, IsSize;
    Letters();
    match w
    case Number(text) => NumberParses(text, rest);
    case Chars(size, s) => SizedParses(size, s, rest);
    case Items(items) =>
      var body := PrintItems(items) + ([CHAR_E] + rest);
      assert Print(w) + rest == [CHAR_L] + body;
      ItemsParse(items, [CHAR_E] + rest);
      Closes(rest);
      assert Meanings(items) + [] == Meanings(items);
      ListParses(body);
    case Fields(fields) =>
      var body := PrintFields(fields) + ([CHAR_E] + rest);
      assert Print(w) + rest == [CHAR_D] + body;
      FieldsParse(fields, [CHAR_E] + rest);
      Closes(rest);
      assert Entries(fields) + [] == Entries(fields);
      DictParses(body);
  }

  lemma Closes(rest: bytes)
    ensures ParseItems([CHAR_E] + rest) == Ok([], 1) && ParseEntries([CHAR_E] + rest) == Ok([], 1)
  {
  }

  /** Items are taken one after the other, whatever follows them. */
  lemma {:induction false} ItemsParse(items: seq<Writing>, tail: bytes)
    requires ProperItems(items)
    ensures ParseItems(PrintItems(items) + tail) == Prepend(Meanings(items), |PrintItems(items)|, ParseItems(tail))
    decreases items, 0
  {
    hide ParseValue, Print, Meaning, ParseItems;
    if |items| > 0 {
      var head, more := Print(items[0]), PrintItems(items[1..]) + tail;
      assert PrintItems(items) + tail == head + more;
      PrintBegins(items[0]);
      WritingParses(items[0], more);
      ParseItemsStep(head, more, Meaning(items[0]));
      ItemsParse(items[1..], tail);
      PrependTwice([Meaning(items[0])], |head|, Meanings(items[1..]), |PrintItems(items[1..])|, ParseItems(tail));
    } else {
      assert PrintItems(items) + tail == tail;
    }
  }

  lemma PrependTwice<T>(xs: seq<T>, m: nat, ys: seq<T>, n: nat, r: Parsed<seq<T>>)
    ensures Prepend(xs, m, Prepend(ys, n, r)) == Prepend(xs + ys, m + n, r)
  {
    if r.Ok? { assert xs + (ys + r.value) == (xs + ys) + r.value; }
  }

  /** Entries are taken one after the other, whatever follows them. */
  lemma {:induction false} FieldsParse(fields: seq<Field>, tail: bytes)
    requires ProperFields(fields)
    ensures ParseEntries(PrintFields(fields) + tail) ==
            Prepend(Entries(fields), |PrintFields(fields)|, ParseEntries(tail))
    decreases fields, 0
  {
    hide ParseEntry, Meaning, ParseEntries;
    if |fields| > 0 {
      var f := fields[0];
      var head, more := PrintField(f), PrintFields(fields[1..]) + tail;
      assert PrintFields(fields) + tail == head + more;
      assert head[0] == f.size[0];
      hide PrintField;
      FieldParses(f, more);
      ParseEntriesStep(head, more, EntryOf(f));
      FieldsParse(fields[1..], tail);
      PrependTwice([EntryOf(f)], |head|, Entries(fields[1..]), |PrintFields(fields[1..])|, ParseEntries(tail));
    } else {
      assert PrintFields(fields) + tail == tail;
    }
  }

  lemma {:induction false} FieldParses(f: Field, rest: bytes)
    requires ProperField(f)
    ensures ParseEntry(PrintField(f) + rest) == Ok(EntryOf(f), |PrintField(f)|)
    decreases f, 0
  {
    hide ParseString, ParseValue, Print, Meaning;
    var key := f.size + Text(":") + f.key;
    var s := PrintField(f) + rest;
    assert s == key + (Print(f.value) + rest);
    SizedParses(f.size, f.key, Print(f.value) + rest);
    assert s[|key|..] == Print(f.value) + rest;
    WritingParses(f.value, rest);
  }

  // ----- Everything accepted is in the grammar -----

  /** Whatever the parser takes is written in the grammar, and means what the parser returns. */
  lemma {:induction false} ParsedIsWritten(s: bytes) returns (w: Writing)
    requires ParseValue(s).Ok?
    ensures Proper(w) && Print(w) == s[..ParseValue(s).used] && Meaning(w) == ParseValue(s).value
    decreases |s|, 0
  {
    hide ParseItems, ParseEntries, ParseString, ParseInt, PrintItems, PrintFields;
    Letters();
    if s[0] == CHAR_I {
      var text := NumberIsWritten(s);
      w := Number(text);
    } else if s[0] == CHAR_L {
      var items := ItemsAreWritten(s[1..]);
      w := Items(items);
      assert s[..ParseValue(s).used] == [s[0]] + s[1..][..ParseItems(s[1..]).used];
    } else if s[0] == CHAR_D {
      var fields := FieldsAreWritten(s[1..]);
      w := Fields(fields);
      assert s[..ParseValue(s).used] == [s[0]] + s[1..][..ParseEntries(s[1..]).used];
    } else {
      var size := SizedIsWritten(s);
      w := Chars(size, ParseString(s).value);
    }
  }

  lemma NumberIsWritten(s: bytes) returns (text: bytes)
    requires |s| > 0 && s[0] == CHAR_I && ParseInt(s).Ok?
    ensures IsNumber(text) && Print(Number(text)) == s[..ParseInt(s).used] && Stoll(text) == Some(ParseInt(s).value)
  {
    Letters();
    var k := Find(s[1..], CHAR_E);
    FindFirst(s[1..], CHAR_E);
    text := s[1..1 + k];
    assert text == s[1..][..k];
    assert s[..k + 2] == [s[0]] + text + [s[1 + k]];
  }

  lemma SizedIsWritten(s: bytes) returns (size: bytes)
    requires ParseString(s).Ok?
    ensures IsSize(size, ParseString(s).value) && |size| > 0 && size[0] == s[0]
    ensures size + Text(":") + ParseString(s).value == s[..ParseString(s).used]
  {
    Letters();
    var k := Find(s, COLON);
    FindFirst(s, COLON);
    size := s[..k];
    if k == 0 { StollOfNothing(); }
    var n := ParseString(s).used;
    assert s[..n] == s[..k] + [s[k]] + s[k + 1..n];
  }

  lemma StollOfNothing()
    ensures Stoll([]) == None
  {
  }

  lemma {:induction false} ItemsAreWritten(s: bytes) returns (items: seq<Writing>)
    requires ParseItems(s).Ok?
    ensures ProperItems(items) && Meanings(items) == ParseItems(s).value
    ensures PrintItems(items) + Text("e") == s[..ParseItems(s).used]
    decreases |s|, 1
  {
    hide ParseValue, Print, Meaning;
    Letters();
    if s[0] == CHAR_E {
      items := [];
    } else {
      var n := ParseValue(s).used;
      var first := ParsedIsWritten(s);
      var more := ItemsAreWritten(s[n..]);
      items := [first] + more;
      assert items[1..] == more;
      Joins(s, n, ParseItems(s[n..]).used);
    }
  }

  lemma Joins(s: bytes, n: nat, more: nat)
    requires n <= |s| && more <= |s| - n
    ensures s[..n] + s[n..][..more] == s[..n + more]
  {
  }

  lemma {:induction false} FieldsAreWritten(s: bytes) returns (fields: seq<Field>)
    requires ParseEntries(s).Ok?
    ensures ProperFields(fields) && Entries(fields) == ParseEntries(s).value
    ensures PrintFields(fields) + Text("e") == s[..ParseEntries(s).used]
    decreases |s|, 1
  {
    hide ParseEntry, PrintField, Meaning;
    Letters();
    if s[0] == CHAR_E {
      fields := [];
    } else {
      var n := ParseEntry(s).used;
      var first := FieldIsWritten(s);
      var more := FieldsAreWritten(s[n..]);
      fields := [first] + more;
      assert fields[1..] == more;
      Joins(s, n, ParseEntries(s[n..]).used);
    }
  }

  lemma {:induction false} FieldIsWritten(s: bytes) returns (f: Field)
    requires |s| > 0 && s[0] != CHAR_E && ParseEntry(s).Ok?
    ensures ProperField(f) && EntryOf(f) == ParseEntry(s).value
    ensures PrintField(f) == s[..ParseEntry(s).used]
    decreases |s|, 0
  {
    hide ParseString, ParseValue, Print, Meaning;
    var k := ParseString(s).used;
    var size := SizedIsWritten(s);
    var w := ParsedIsWritten(s[k..]);
    f := Field(size, ParseString(s).value, w);
    Joins(s, k, ParseValue(s[k..]).used);
  }

  // ----- Which exception is thrown where -----

  /** A value cannot begin at the end of the input or with another byte than the four kinds have. */
  lemma ValueErrors(s: bytes)
    ensures s == [] ==> ParseValue(s) == Err(UnexpectedEnd)
    ensures s != [] && !IsDigit(s[0]) && [s[0]] != Text("i") && [s[0]] != Text("l") && [s[0]] != Text("d") ==>
              ParseValue(s) == Err(InvalidFormat)
    ensures s != [] && IsDigit(s[0]) && ParseString(s).Err? ==> ParseValue(s) == Err(ParseString(s).error)
  {
    Letters();
    hide ParseString;
  }

  /** An integer without its end, and one that stoll does not accept. */
  lemma NumberErrors(text: bytes, rest: bytes)
    requires 'e' as int !in text
    ensures ParseValue(Text("i") + text) == Err(InvalidIntegerFormat)
    ensures Stoll(text) == None ==> ParseValue(Text("i") + text + Text("e") + rest) == Err(InvalidIntegerValue)
  {
    Letters();
    var open, closed := Text("i") + text, Text("i") + text + Text("e") + rest;
    assert open[1..] == text;
    FindFirst(text, CHAR_E);
    FindAfter(text, CHAR_E, rest);
    assert closed[1..] == text + [CHAR_E] + rest && closed[1..1 + |text|] == text;
  }

  /** A string without its colon; a size that stoll does not accept; a negative one; and one for more
      bytes than there are. */
  lemma StringErrors(size: bytes, rest: bytes)
    requires ':' as int !in size
    ensures ParseString(size) == Err(InvalidStringFormat)
    ensures var s := size + Text(":") + rest;
            && (Stoll(size) == None ==> ParseString(s) == Err(InvalidLength))
            && (Stoll(size).Some? && Stoll(size).value < 0 ==> ParseString(s) == Err(NegativeLength))
            && (Stoll(size).Some? && Stoll(size).value > |rest| ==> ParseString(s) == Err(LengthExceedsInput))
  {
    Letters();
    var s := size + Text(":") + rest;
    FindFirst(size, COLON);
    FindAfter(size, COLON, rest);
    assert s == size + [COLON] + rest && s[..|size|] == size;
  }

  lemma ListFails(body: bytes)
    requires ParseItems(body).Err?
    ensures ParseValue(Text("l") + body) == Err(ParseItems(body).error)
  {
    Letters();
    hide ParseItems;
    assert (Text("l") + body)[1..] == body;
  }

  lemma DictFails(body: bytes)
    requires ParseEntries(body).Err?
    ensures ParseValue(Text("d") + body) == Err(ParseEntries(body).error)
  {
    Letters();
    hide ParseEntries;
    assert (Text("d") + body)[1..] == body;
  }

  /** What the loops throw where the next item or entry is not accepted. */
  lemma NextFails(rest: bytes)
    ensures rest == [] ==> ParseItems(rest) == Err(InvalidList) && ParseEntries(rest) == Err(InvalidDictionary)
    ensures rest != [] && rest[0] != 'e' as int && ParseValue(rest).Err? ==>
              ParseItems(rest) == Err(ParseValue(rest).error)
    ensures rest != [] && rest[0] != 'e' as int && ParseEntry(rest).Err? ==>
              ParseEntries(rest) == Err(ParseEntry(rest).error)
  {
    hide ParseValue, ParseEntry;
  }

  /** A list that breaks off after some items throws, and so does one in which the next item does. */
  lemma ListErrors(items: seq<Writing>, rest: bytes)
    requires ProperItems(items)
    ensures rest == [] ==> ParseValue(Text("l") + (PrintItems(items) + rest)) == Err(InvalidList)
    ensures rest != [] && rest[0] != 'e' as int && ParseValue(rest).Err? ==>
              ParseValue(Text("l") + (PrintItems(items) + rest)) == Err(ParseValue(rest).error)
  {
    hide ParseValue, ParseItems;
    NextFails(rest);
    ItemsParse(items, rest);
    if ParseItems(rest).Err? { ListFails(PrintItems(items) + rest); }
  }

  /** A dictionary that breaks off after some entries throws, and so does one in which the next key
      does, or its value. */
  lemma DictErrors(fields: seq<Field>, rest: bytes)
    requires ProperFields(fields)
    ensures var r := ParseValue(Text("d") + (PrintFields(fields) + rest));
            && (rest == [] ==> r == Err(InvalidDictionary))
            && (rest != [] && rest[0] != 'e' as int && ParseString(rest).Err? ==> r == Err(ParseString(rest).error))
            && (rest != [] && rest[0] != 'e' as int && ParseString(rest).Ok? &&
                ParseValue(rest[ParseString(rest).used..]).Err? ==>
                  r == Err(ParseValue(rest[ParseString(rest).used..]).error))
  {
    hide ParseValue, ParseEntries, ParseString;
    NextFails(rest);
    FieldsParse(fields, rest);
    if ParseEntries(rest).Err? { DictFails(PrintFields(fields) + rest); }
  }
}
