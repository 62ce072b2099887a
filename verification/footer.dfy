/** The footer's contact card: one row per contact channel, some of them
    links, with hrefs and labels derived from the contact details. */
module Footer {
  import opened Common

  /** The characters JavaScript's `\s` matches. */
  predicate IsWhitespace(c: char) {
    || c == ' ' || c == '\t' || c == '\n' || c == '\U{000B}' || c == '\U{000C}' || c == '\r'
    || c == '\U{00A0}' || c == '\U{1680}' || ('\U{2000}' <= c <= '\U{200A}')
    || c == '\U{2028}' || c == '\U{2029}' || c == '\U{202F}' || c == '\U{205F}'
    || c == '\U{3000}' || c == '\U{FEFF}'
  }

  predicate NoWhitespace(s: string) {
    forall i :: 0 <= i < |s| ==> !IsWhitespace(s[i])
  }

  function WhitespaceCount(s: string): (r: nat)
    ensures r <= |s|
  {
    if |s| == 0 then 0
    else (if IsWhitespace(s[0]) then 1 else 0) + WhitespaceCount(s[1..])
  }

  /** `sub` can be obtained from `s` by deleting characters. */
  predicate IsSubsequence(sub: string, s: string)
    decreases |s|
  {
    if |sub| == 0 then true
    else if |s| == 0 then false
    else if sub[0] == s[0] then IsSubsequence(sub[1..], s[1..])
    else IsSubsequence(sub, s[1..])
  }

  /** `s.replace(/\s/g, '')`: every whitespace character removed. The result
      keeps the other characters in order, drops exactly the whitespace, and
      has none left. */
  function StripWhitespace(s: string): (r: string)
    ensures NoWhitespace(r)
    ensures IsSubsequence(r, s)
    ensures |r| == |s| - WhitespaceCount(s)
    decreases |s|
  {
    if |s| == 0 then ""
    else
      var rest := StripWhitespace(s[1..]);
      if IsWhitespace(s[0]) then rest else [s[0]] + rest
  }

  /** Stripping works piecewise: the two halves of a string are stripped
      independently. */
  lemma {:induction false} StripWhitespaceAppend(a: string, b: string)
    ensures StripWhitespace(a + b) == StripWhitespace(a) + StripWhitespace(b)
    decreases |a|
  {
    if |a| == 0 {
      assert a + b == b;
    } else {
      assert (a + b)[1..] == a[1..] + b;
      StripWhitespaceAppend(a[1..], b);
    }
  }

  /** Stripping is idempotent and leaves whitespace-free strings alone. */
  lemma {:induction false} StripWhitespaceFixesClean(s: string)
    requires NoWhitespace(s)
    ensures StripWhitespace(s) == s
    decreases |s|
  {
    if |s| > 0 {
      StripWhitespaceFixesClean(s[1..]);
    }
  }

  /** The phone link: `tel:` followed by the number without whitespace. */
  function PhoneHref(phone: string): (r: string)
    ensures StartsWith(r, "tel:") && NoWhitespace(r[4..])
    ensures IsSubsequence(r[4..], phone) && |r| - 4 == |phone| - WhitespaceCount(phone)
  {
    "tel:" + StripWhitespace(phone)
  }

  /** The mail link: `mailto:` followed by the address, which can be read
      back from the link. */
  function MailHref(email: string): (r: string)
    ensures StartsWith(r, "mailto:") && r[7..] == email
  {
    "mailto:" + email
  }

  const HttpsPrefix: string := "https://"

  /** The website's label: the URL with its first `https://` removed. */
  function WebsiteLabel(website: string): (r: string)
    ensures !Includes(website, HttpsPrefix) ==> r == website
    ensures Includes(website, HttpsPrefix) ==>
      exists k: nat :: OccursAt(website, HttpsPrefix, k)
        && (forall j: nat :: j < k ==> !OccursAt(website, HttpsPrefix, j))
        && r == website[..k] + website[k + |HttpsPrefix|..]
  {
    ReplaceFirst(website, HttpsPrefix, "")
  }

  /** On an ordinary URL the label is the URL without its scheme; only the
      first occurrence is removed, wherever it stands. */
  lemma WebsiteLabelExamples(rest: string)
    ensures WebsiteLabel(HttpsPrefix + rest) == rest
    ensures WebsiteLabel("https://a/https://") == "a/https://"
  {
  }

  datatype Icon = Mail | Phone | MapPin | Globe
  datatype Align = Start | End

  /** `ContactRow`'s props. */
  datatype ContactRow = ContactRow(icon: Icon, text: string, href: Option<string>, external: bool, align: Option<Align>)

  /** The rendered row: a link or a plain block, with its justification
      class; a link opened in a new tab carries `target` and `rel`. */
  datatype Element =
    | Anchor(href: string, justify: string, text: string, newTab: Option<(string, string)>)
    | Block(justify: string, text: string)

  /** The justification class; the alignment defaults to `end`. */
  function Justify(align: Option<Align>): (r: string)
    ensures r == "justify-end" <==> align.GetOr(End) == End
    ensures r == "justify-start" <==> align.GetOr(End) == Start
  {
    assert "justify-end" != "justify-start" by { assert |"justify-end"| != |"justify-start"|; }
    match align.GetOr(End)
    case End => "justify-end"
    case Start => "justify-start"
  }

  /** `ContactRow`: a link exactly when a non-empty `href` is given (an empty
      string is falsy), opened in a new tab exactly when `external` is set. */
  function Render(row: ContactRow): (r: Element)
    ensures r.Anchor? <==> row.href.Some? && row.href.value != ""
    ensures r.Anchor? ==> r.href == row.href.value
    ensures r.Anchor? ==> (r.newTab.Some? <==> row.external)
    ensures r.Anchor? && r.newTab.Some? ==> r.newTab.value == ("_blank", "noopener noreferrer")
    ensures r.justify == Justify(row.align) && r.text == row.text
  {
    var base := Justify(row.align);
    if row.href.Some? && row.href.value != "" then
      Anchor(row.href.value, base, row.text,
             if row.external then Some(("_blank", "noopener noreferrer")) else None)
    else
      Block(base, row.text)
  }

  datatype Address = Address(id: string, street: string, city: string)

  /** The contact details; phone, email and website are inputs of the model. */
  datatype ContactInfo = ContactInfo(email: string, phone: string, website: string, addresses: seq<Address>)

  /** One row per address, in order, reading `street, city`, with no link. */
  function AddressRows(addresses: seq<Address>, align: Option<Align>): (r: seq<ContactRow>)
    ensures |r| == |addresses|
    ensures forall i :: 0 <= i < |r| ==>
      r[i].text == addresses[i].street + ", " + addresses[i].city && Render(r[i]).Block?
  {
    seq(|addresses|, i requires 0 <= i < |addresses| =>
      ContactRow(MapPin, addresses[i].street + ", " + addresses[i].city, None, false, align))
  }

  /** The contact rows of the card: mail, phone, each address, website.
      Mail and phone link to their hrefs in the same tab; the website links
      to its URL in a new tab under its label; every row has the card's
      alignment. */
  function ContactRows(info: ContactInfo, align: Option<Align>): (r: seq<ContactRow>)
    ensures |r| == |info.addresses| + 3
    ensures r[0].icon == Mail && r[0].text == info.email
      && r[0].href == Some(MailHref(info.email)) && !r[0].external
    ensures r[1].icon == Phone && r[1].text == info.phone
      && r[1].href == Some(PhoneHref(info.phone)) && !r[1].external
    ensures r[2..|r| - 1] == AddressRows(info.addresses, align)
    ensures r[|r| - 1].icon == Globe && r[|r| - 1].text == WebsiteLabel(info.website)
      && r[|r| - 1].href == Some(info.website) && r[|r| - 1].external
    ensures forall i :: 0 <= i < |r| ==> r[i].align == align
  {
    [ ContactRow(Mail, info.email, Some(MailHref(info.email)), false, align),
      ContactRow(Phone, info.phone, Some(PhoneHref(info.phone)), false, align) ]
    + AddressRows(info.addresses, align)
    + [ ContactRow(Globe, WebsiteLabel(info.website), Some(info.website), true, align) ]
  }

  /** The card's rows: mail and phone are same-tab links, the addresses are
      plain text, the website opens in a new tab when its URL is non-empty.
      The desktop card (default alignment) and the mobile card (`start`)
      differ only in their justification. */
  lemma ContactCard(info: ContactInfo)
    ensures var rows := ContactRows(info, None);
      && Render(rows[0]) == Anchor(MailHref(info.email), "justify-end", info.email, None)
      && Render(rows[1]) == Anchor(PhoneHref(info.phone), "justify-end", info.phone, None)
      && (forall i :: 2 <= i < |rows| - 1 ==> Render(rows[i]).Block?)
      && (info.website != "" ==>
            Render(rows[|rows| - 1]) ==
            Anchor(info.website, "justify-end", WebsiteLabel(info.website), Some(("_blank", "noopener noreferrer"))))
    ensures forall i :: 0 <= i < |ContactRows(info, None)| ==>
      ContactRows(info, Some(Start))[i] == ContactRows(info, None)[i].(align := Some(Start))
  {
  }

  /** The company's two offices give two address rows, in this order. */
  lemma OfficeAddresses()
    ensures var rows := AddressRows(
        [Address("main", "Route de Chêne 36", "1208 Genève"),
         Address("lausanne", "Avenue de la Gare 10", "1003 Lausanne")], None);
      rows[0].text == "Route de Chêne 36, 1208 Genève" && rows[1].text == "Avenue de la Gare 10, 1003 Lausanne"
  {
  }
}
