/**
 * The customers screen of the admin dashboard: the search box over name, e-mail and
 * location, and the CSV export of the customers it shows.
 */
module CustomerDirectory {
  import Seqs
  import Text

  /** A customer; `totalSpent` in paise. */
  datatype Customer = Customer(
    id: string,
    name: string,
    email: string,
    phone: string,
    location: string,
    totalOrders: int,
    totalSpent: int,
    lastOrderDate: string)

  /** The search matches when the lower-cased name, e-mail or location contains the lower-cased term. */
  predicate Matches(c: Customer, term: string)
  {
    var t := Text.Lower(term);
    Text.Contains(Text.Lower(c.name), t) || Text.Contains(Text.Lower(c.email), t) ||
    Text.Contains(Text.Lower(c.location), t)
  }

  /** `filteredCustomers`: the matching customers, in their order. */
  function FilterCustomers(cs: seq<Customer>, term: string): (r: seq<Customer>)
    ensures forall i :: 0 <= i < |r| ==> Matches(r[i], term) && r[i] in cs
    ensures forall c :: multiset(r)[c] == if Matches(c, term) then multiset(cs)[c] else 0
    ensures Seqs.IsSubsequence(r, cs)
  {
    var keep := (c: Customer) => Matches(c, term);
    var kept := Seqs.Filter(cs, keep);
    Seqs.FilterIsSubsequence(cs, keep);
    Seqs.FilterMultiset(cs, keep);
    kept
  }

  /** Every string contains the empty string. */
  lemma {:induction false} ContainsEmpty(s: string)
    ensures Text.Contains(s, "")
  {
    assert Text.StartsWith(s, "");
  }

  /** An empty search keeps every customer. */
  lemma EmptySearchKeepsAll(cs: seq<Customer>)
    ensures FilterCustomers(cs, "") == cs
  {
    forall i | 0 <= i < |cs|
      ensures Matches(cs[i], "")
    {
      assert Text.Lower("") == "";
      ContainsEmpty(Text.Lower(cs[i].name));
    }
    Seqs.FilterAll(cs, (c: Customer) => Matches(c, ""));
  }

  /** The two decimals of `d` in 0..99. */
  function TwoDigits(d: nat): (r: string)
    requires d < 100
    ensures |r| == 2
  {
    [Text.DigitChar(d / 10), Text.DigitChar(d % 10)]
  }

  /** `toFixed(2)` of an amount held in paise. */
  function Money(paise: int): (r: string)
    ensures Text.CountChar(r, '\n') == 0
  {
    var m: nat := if paise < 0 then -paise else paise;
    var digits := Text.NatToString(m / 100) + "." + TwoDigits(m % 100);
    Text.NoBreakInDigits(TwoDigits(m % 100));
    Text.CountCharAppend(Text.NatToString(m / 100), ".", '\n');
    Text.CountCharAppend(Text.NatToString(m / 100) + ".", TwoDigits(m % 100), '\n');
    if paise < 0 then
      Text.CountCharAppend("-", digits, '\n');
      "-" + digits
    else digits
  }

  /** The CSV header. */
  function Header(): (r: seq<string>)
    ensures |r| == 8
  {
    ["ID", "Name", "Email", "Phone", "Location", "Total Orders", "Total Spent", "Last Order Date"]
  }

  /** The fields of a customer's line, the location wrapped in double quotes. */
  function Fields(c: Customer): (r: seq<string>)
    ensures |r| == |Header()|
    ensures r[4] == "\"" + c.location + "\""
    ensures r[0] == c.id && r[1] == c.name && r[2] == c.email && r[3] == c.phone && r[7] == c.lastOrderDate
    ensures r[5] == Text.IntToString(c.totalOrders) && r[6] == Money(c.totalSpent)
  {
    [c.id, c.name, c.email, c.phone, "\"" + c.location + "\"",
     Text.IntToString(c.totalOrders), Money(c.totalSpent), c.lastOrderDate]
  }

  /** The lines of the file: the header, then one line per shown customer, in order. */
  function CsvLines(shown: seq<Customer>): (r: seq<string>)
    ensures |r| == |shown| + 1
    ensures r[0] == Text.Join(Header(), ",")
    ensures forall i :: 0 <= i < |shown| ==> r[i + 1] == Text.Join(Fields(shown[i]), ",")
  {
    var body := Seqs.Map(shown, (c: Customer) => Text.Join(Fields(c), ","));
    var r := [Text.Join(Header(), ",")] + body;
    assert forall i :: 0 <= i < |body| ==> r[i + 1] == body[i];
    r
  }

  const CsvPrefix := "data:text/csv;charset=utf-8,"

  /** `handleExportCSV`'s content: the data-URI prefix, then the lines joined by line breaks. */
  function CsvContent(cs: seq<Customer>, term: string): (r: string)
    ensures Text.StartsWith(r, CsvPrefix)
    ensures r[|CsvPrefix|..] == Text.Join(CsvLines(FilterCustomers(cs, term)), "\n")
  {
    var body := Text.Join(CsvLines(FilterCustomers(cs, term)), "\n");
    assert (CsvPrefix + body)[..|CsvPrefix|] == CsvPrefix;
    assert (CsvPrefix + body)[|CsvPrefix|..] == body;
    CsvPrefix + body
  }

  /** The data-URI prefix holds no line break. */
  lemma PrefixSingleLine()
    ensures Text.CountChar(CsvPrefix, '\n') == 0
  {
    assert '\n' !in CsvPrefix;
    Text.CountCharZero(CsvPrefix, '\n');
  }

  /** The header names hold no line break. */
  lemma HeaderSingleLine()
    ensures forall i :: 0 <= i < |Header()| ==> Text.CountChar(Header()[i], '\n') == 0
  {
    forall i | 0 <= i < |Header()|
      ensures Text.CountChar(Header()[i], '\n') == 0
    {
      Text.CountCharZero(Header()[i], '\n');
    }
  }

  /** No field of the customer holds a line break. */
  predicate SingleLine(c: Customer)
  {
    Text.CountChar(c.id, '\n') == 0 && Text.CountChar(c.name, '\n') == 0 &&
    Text.CountChar(c.email, '\n') == 0 && Text.CountChar(c.phone, '\n') == 0 &&
    Text.CountChar(c.location, '\n') == 0 && Text.CountChar(c.lastOrderDate, '\n') == 0
  }

  /** A customer's line holds no line break when none of its fields does. */
  lemma LineWithoutBreak(c: Customer)
    requires SingleLine(c)
    ensures Text.CountChar(Text.Join(Fields(c), ","), '\n') == 0
  {
    var q := "\"";
    Text.CountCharAppend(q, c.location, '\n');
    Text.CountCharAppend(q + c.location, q, '\n');
    Text.JoinWithout(Fields(c), ",", '\n');
  }

  /** With single-line fields, no line of the file holds a line break. */
  lemma LinesSingleLine(shown: seq<Customer>)
    requires forall i :: 0 <= i < |shown| ==> SingleLine(shown[i])
    ensures forall i :: 0 <= i < |CsvLines(shown)| ==> Text.CountChar(CsvLines(shown)[i], '\n') == 0
  {
    var lines := CsvLines(shown);
    forall i | 0 <= i < |lines|
      ensures Text.CountChar(lines[i], '\n') == 0
    {
      if i == 0 {
        HeaderSingleLine();
        Text.JoinWithout(Header(), ",", '\n');
      } else {
        assert lines[i] == Text.Join(Fields(shown[i - 1]), ",");
        LineWithoutBreak(shown[i - 1]);
      }
    }
  }

  /** With single-line fields, the file has exactly one line break per shown customer: a header and one line each. */
  lemma CsvLineCount(cs: seq<Customer>, term: string)
    requires forall i :: 0 <= i < |cs| ==> SingleLine(cs[i])
    ensures Text.CountChar(CsvContent(cs, term), '\n') == |FilterCustomers(cs, term)|
  {
    var shown := FilterCustomers(cs, term);
    var lines := CsvLines(shown);
    ShownSingleLine(cs, term);
    LinesSingleLine(shown);
    Text.JoinLineBreaks(lines);
    var body := Text.Join(lines, "\n");
    assert Text.CountChar(body, '\n') == |shown|;
    Text.CountCharAppend(CsvPrefix, body, '\n');
    PrefixSingleLine();
    var content := CsvContent(cs, term);
    assert content == CsvPrefix + body;
  }

  /** The shown customers are among the given ones, so they are single-line when those are. */
  lemma ShownSingleLine(cs: seq<Customer>, term: string)
    requires forall i :: 0 <= i < |cs| ==> SingleLine(cs[i])
    ensures forall i :: 0 <= i < |FilterCustomers(cs, term)| ==> SingleLine(FilterCustomers(cs, term)[i])
  {
    var shown := FilterCustomers(cs, term);
    forall i | 0 <= i < |shown| ensures SingleLine(shown[i]) {
      var k :| 0 <= k < |cs| && cs[k] == shown[i];
    }
  }
}
