/**
 * The order buttons under each product card (app.py lines 235-240): a
 * message naming the product and its size, put into the `text` query
 * parameter of a `wa.me` link for each of the two sellers.
 *
 * The receiving side is modelled as WhatsApp reads the link: the value of
 * `text` runs up to the next `&` (the next parameter) or `#` (the fragment),
 * and its percent escapes (section 2.1 of RFC 3986) are then decoded.
 */
module WhatsApp {
  import opened Catalog

  const Greeting := "Hola BOLD FIT, me interesa: "

  /** The two sellers' numbers, each with its own button. */
  datatype Seller = First | Second

  function Phone(seller: Seller): string {
    match seller
    case First => "529511198303"
    case Second => "529514720440"
  }

  function LinkPrefix(seller: Seller): string {
    "https://wa.me/" + Phone(seller) + "?text="
  }

  /** A field formatted into the message: `None` when the row lacks the column. */
  function FieldText(row: Row, key: string): string {
    if key in row then CellText(row[key]) else "None"
  }

  /** The message a customer sends about one product: the greeting, the product's name,
      then its size in parentheses. */
  function Message(row: Row): (m: string)
    ensures |Greeting| + |FieldText(row, ProductKey)| < |m|
    ensures m[..|Greeting|] == Greeting
    ensures m[|Greeting|..|Greeting| + |FieldText(row, ProductKey)|] == FieldText(row, ProductKey)
    ensures m[|Greeting| + |FieldText(row, ProductKey)|..] == " (Talla: " + FieldText(row, SizeKey) + ")"
  {
    var name, tail := FieldText(row, ProductKey), " (Talla: " + FieldText(row, SizeKey) + ")";
    ThreeParts(Greeting, name, tail);
    Greeting + name + tail
  }

  /** The three parts of a concatenation can be sliced back out of it. */
  lemma ThreeParts(a: string, b: string, c: string)
    ensures (a + b + c)[..|a|] == a
    ensures (a + b + c)[|a|..|a| + |b|] == b
    ensures (a + b + c)[|a| + |b|..] == c
  {
  }

  // ---------------------------------------------------------------------
  // Reading a `text` parameter back.

  /** The parameter value: everything before the next `&` or `#`. */
  function QueryValue(s: string): (v: string)
    ensures |v| <= |s| && v == s[..|v|]
    ensures '&' !in v && '#' !in v
    ensures |v| < |s| ==> s[|v|] == '&' || s[|v|] == '#'
  {
    if s == [] || s[0] == '&' || s[0] == '#' then [] else [s[0]] + QueryValue(s[1..])
  }

  predicate IsHex(c: char) {
    '0' <= c <= '9' || 'A' <= c <= 'F' || 'a' <= c <= 'f'
  }

  function HexValue(c: char): (v: nat)
    requires IsHex(c)
    ensures v < 16
  {
    if '0' <= c <= '9' then c as int - '0' as int
    else if 'A' <= c <= 'F' then c as int - 'A' as int + 10
    else c as int - 'a' as int + 10
  }

  /** `%XY` for an ASCII byte `XY` becomes that character; anything else stays as written. */
  predicate IsAsciiEscape(s: string) {
    |s| >= 3 && s[0] == '%' && IsHex(s[1]) && IsHex(s[2]) && HexValue(s[1]) < 8
  }

  function PercentDecode(s: string): (r: string)
    ensures '%' !in s ==> r == s
    decreases |s|
  {
    if s == [] then []
    else if IsAsciiEscape(s) then [(HexValue(s[1]) * 16 + HexValue(s[2])) as char] + PercentDecode(s[3..])
    else [s[0]] + PercentDecode(s[1..])
  }

  /** What the seller's chat box shows for an encoded `text` value. */
  function ReceivedText(encoded: string): string {
    PercentDecode(QueryValue(encoded))
  }

  // ---------------------------------------------------------------------
  // The encoding as the page writes it: spaces only.

  /** `msg.replace(' ', '%20')`. */
  function EncodeSpaces(s: string): (r: string)
    ensures ' ' !in r
    ensures |r| >= |s|
  {
    if s == [] then [] else (if s[0] == ' ' then "%20" else [s[0]]) + EncodeSpaces(s[1..])
  }

  /** The link the page builds for a seller. */
  function AsWrittenLink(seller: Seller, row: Row): string {
    LinkPrefix(seller) + EncodeSpaces(Message(row))
  }

  lemma {:induction false} EncodeSpacesKeeps(s: string, c: char)
    requires c != ' ' && c != '%' && c != '2' && c != '0'
    ensures c in EncodeSpaces(s) <==> c in s
  {
    if s != [] {
      EncodeSpacesKeeps(s[1..], c);
      assert s == [s[0]] + s[1..];
    }
  }

  /** A character other than `%` decodes to itself. */
  lemma PlainDecodes(c: char, rest: string)
    requires c != '%'
    ensures PercentDecode([c] + rest) == [c] + PercentDecode(rest)
  {
    var e := [c] + rest;
    assert !IsAsciiEscape(e) && e[1..] == rest;
  }

  /**
   * Spaces come through: a text with no `%`, `&` or `#` reaches the seller
   * exactly as written.
   */
  lemma {:induction false} SpacesRoundTrip(s: string)
    requires '%' !in s && '&' !in s && '#' !in s
    ensures ReceivedText(EncodeSpaces(s)) == s
  {
    EncodeSpacesKeeps(s, '&');
    EncodeSpacesKeeps(s, '#');
    QueryValueWhole(EncodeSpaces(s));
    SpacesDecode(s);
  }

  lemma {:induction false} SpacesDecode(s: string)
    requires '%' !in s
    ensures PercentDecode(EncodeSpaces(s)) == s
  {
    if s != [] {
      SpacesDecode(s[1..]);
      var rest := EncodeSpaces(s[1..]);
      if s[0] == ' ' {
        EscapeDecodes(' ', rest);
      } else {
        PlainDecodes(s[0], rest);
      }
    }
  }

  /**
   * An `&` in a product name ends the `text` parameter early: the seller
   * receives only what came before it.
   */
  lemma AmpersandTruncates(before: string, after: string)
    requires '%' !in before && '&' !in before && '#' !in before
    ensures ReceivedText(EncodeSpaces(before + "&" + after)) == before
  {
    var s := before + "&" + after;
    EncodeSpacesAppend(before, "&" + after);
    assert s == before + ("&" + after);
    EncodeSpacesKeeps(before, '&');
    EncodeSpacesKeeps(before, '#');
    var head := EncodeSpaces(before);
    var tail := EncodeSpaces("&" + after);
    assert tail[0] == '&';
    QueryValueStops(head, tail);
    SpacesDecode(before);
  }

  lemma {:induction false} EncodeSpacesAppend(a: string, b: string)
    ensures EncodeSpaces(a + b) == EncodeSpaces(a) + EncodeSpaces(b)
  {
    if a != [] {
      EncodeSpacesAppend(a[1..], b);
      assert (a + b)[0] == a[0] && (a + b)[1..] == a[1..] + b;
      var piece := if a[0] == ' ' then "%20" else [a[0]];
      assert EncodeSpaces(a + b) == piece + EncodeSpaces(a[1..] + b);
      assert EncodeSpaces(a) == piece + EncodeSpaces(a[1..]);
      assert piece + (EncodeSpaces(a[1..]) + EncodeSpaces(b)) == (piece + EncodeSpaces(a[1..])) + EncodeSpaces(b);
    } else {
      assert a + b == b;
    }
  }

  lemma {:induction false} QueryValueStops(head: string, tail: string)
    requires '&' !in head && '#' !in head
    requires tail != [] && tail[0] == '&'
    ensures QueryValue(head + tail) == head
  {
    if head != [] {
      QueryValueStops(head[1..], tail);
      assert (head + tail)[1..] == head[1..] + tail;
    }
  }

  lemma GreetingIsPlain()
    ensures '%' !in Greeting && '&' !in Greeting && '#' !in Greeting
  {
  }

  /**
   * A product called `Short & Top` reaches the seller, from either button of the
   * page, as a message cut after `Short `.
   */
  lemma AmpersandProductCutsMessage(seller: Seller, row: Row, before: string, after: string)
    requires ProductKey in row && row[ProductKey] == Str(before + "&" + after)
    requires '%' !in before && '&' !in before && '#' !in before
    ensures |LinkPrefix(seller)| <= |AsWrittenLink(seller, row)|
    ensures AsWrittenLink(seller, row)[..|LinkPrefix(seller)|] == LinkPrefix(seller)
    ensures ReceivedText(AsWrittenLink(seller, row)[|LinkPrefix(seller)|..]) == Greeting + before
  {
    var tail := after + " (Talla: " + FieldText(row, SizeKey) + ")";
    assert Message(row) == (Greeting + before) + "&" + tail;
    GreetingIsPlain();
    AmpersandTruncates(Greeting + before, tail);
    assert AsWrittenLink(seller, row)[|LinkPrefix(seller)|..] == EncodeSpaces(Message(row));
  }

  // ---------------------------------------------------------------------
  // The encoding the links evidently intend: every character that would end
  // or alter the parameter is escaped.

  function Escape(c: char): (e: string)
    ensures 1 <= |e| <= 3
  {
    match c
    case ' ' => "%20"
    case '#' => "%23"
    case '%' => "%25"
    case '&' => "%26"
    case _ => [c]
  }

  function EncodeQueryText(s: string): (r: string)
    ensures ' ' !in r && '&' !in r && '#' !in r
    ensures |s| <= |r| <= 3 * |s|
  {
    if s == [] then [] else Escape(s[0]) + EncodeQueryText(s[1..])
  }

  /** The link each button should carry. */
  function Link(seller: Seller, row: Row): string {
    LinkPrefix(seller) + EncodeQueryText(Message(row))
  }

  lemma EscapeDecodes(c: char, rest: string)
    ensures PercentDecode(Escape(c) + rest) == [c] + PercentDecode(rest)
  {
    var e := Escape(c) + rest;
    if c == ' ' || c == '#' || c == '%' || c == '&' {
      assert IsAsciiEscape(e) && e[3..] == rest;
    } else {
      PlainDecodes(c, rest);
    }
  }

  /** Any text at all reaches the seller exactly as written. */
  lemma {:induction false} QueryTextRoundTrip(s: string)
    ensures ReceivedText(EncodeQueryText(s)) == s
  {
    QueryValueWhole(EncodeQueryText(s));
    QueryTextDecodes(s);
  }

  lemma {:induction false} QueryTextDecodes(s: string)
    ensures PercentDecode(EncodeQueryText(s)) == s
  {
    if s != [] {
      QueryTextDecodes(s[1..]);
      EscapeDecodes(s[0], EncodeQueryText(s[1..]));
    }
  }

  lemma {:induction false} QueryValueWhole(s: string)
    requires '&' !in s && '#' !in s
    ensures QueryValue(s) == s
  {
    if s != [] {
      QueryValueWhole(s[1..]);
    }
  }

  /** Each seller receives the full message about the product, from either button. */
  lemma SellerReceivesMessage(seller: Seller, row: Row)
    ensures |LinkPrefix(seller)| <= |Link(seller, row)|
    ensures Link(seller, row)[..|LinkPrefix(seller)|] == LinkPrefix(seller)
    ensures ReceivedText(Link(seller, row)[|LinkPrefix(seller)|..]) == Message(row)
  {
    QueryTextRoundTrip(Message(row));
    assert Link(seller, row)[|LinkPrefix(seller)|..] == EncodeQueryText(Message(row));
  }
}
