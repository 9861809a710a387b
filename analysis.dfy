/** Address linking (src/analysis.rs): joins billing subscriptions to
    regulatory location records. For each subscription, in order, the
    locations are scanned in order and the first that passes four gates
    (same city, same digits, same house number, similar street) is paired
    with it; a subscription no location passes is dropped. */
module Analysis {
  import opened RustTypes
  import opened Fcc
  import opened Emerald

  /** `char::is_ascii_digit`. */
  predicate IsAsciiDigit(c: char)
  {
    '0' <= c <= '9'
  }

  /** `digits`: the ASCII digits of `text`, in order. */
  function Digits(text: string): (d: string)
    ensures |d| <= |text|
    ensures forall i :: 0 <= i < |d| ==> IsAsciiDigit(d[i])
  {
    if text == [] then []
    else (if IsAsciiDigit(text[0]) then [text[0]] else []) + Digits(text[1..])
  }

  /** `digits` distributes over concatenation, so it keeps the digits in their order. */
  lemma {:induction false} DigitsAppend(a: string, b: string)
    ensures Digits(a + b) == Digits(a) + Digits(b)
  {
    if a == [] {
      assert a + b == b;
    } else {
      assert (a + b)[0] == a[0] && (a + b)[1..] == a[1..] + b;
      DigitsAppend(a[1..], b);
    }
  }

  /** `digits` keeps every digit, as often as it occurs, and nothing else. */
  lemma {:induction false} DigitsCount(text: string, c: char)
    ensures multiset(Digits(text))[c] == if IsAsciiDigit(c) then multiset(text)[c] else 0
  {
    if text != [] {
      DigitsCount(text[1..], c);
      assert text == [text[0]] + text[1..];
      assert multiset(text) == multiset([text[0]]) + multiset(text[1..]);
    }
  }

  /** A text made only of digits is its own `digits`. */
  lemma {:induction false} DigitsOfDigitText(text: string)
    requires forall i :: 0 <= i < |text| ==> IsAsciiDigit(text[i])
    ensures Digits(text) == text
  {
    if text != [] {
      DigitsOfDigitText(text[1..]);
    }
  }

  /** A text without digits has no `digits`. */
  lemma {:induction false} DigitsOfNonDigitText(text: string)
    requires forall i :: 0 <= i < |text| ==> !IsAsciiDigit(text[i])
    ensures Digits(text) == []
  {
    if text != [] {
      DigitsOfNonDigitText(text[1..]);
    }
  }

  /** `digits` is idempotent. */
  lemma DigitsIdempotent(text: string)
    ensures Digits(Digits(text)) == Digits(text)
  {
    DigitsOfDigitText(Digits(text));
  }

  /** `str::split_once` on a character: the text before the first `sep` and
      the text after it, or nothing when `sep` does not occur. */
  function SplitOnce(s: string, sep: char): (r: Option<(string, string)>)
    ensures r.None? <==> sep !in s
    ensures r.Some? ==> s == r.value.0 + [sep] + r.value.1 && sep !in r.value.0
  {
    if s == [] then None
    else if s[0] == sep then Some(([], s[1..]))
    else
      match SplitOnce(s[1..], sep)
      case None => None
      case Some((head, tail)) => Some(([s[0]] + head, tail))
  }

  /** The split is the only one at an occurrence of `sep` with no `sep` before it. */
  lemma SplitOnceAt(s: string, sep: char, head: string, tail: string)
    requires s == head + [sep] + tail && sep !in head
    ensures SplitOnce(s, sep) == Some((head, tail))
  {
    assert s[|head|] == sep;
    var (h, t) := SplitOnce(s, sep).value;
    assert s == h + [sep] + t && sep !in h;
    assert forall i :: 0 <= i < |head| ==> s[i] == head[i] != sep;
    assert forall i :: 0 <= i < |h| ==> s[i] == h[i] != sep;
    assert s[|h|] == sep;
    assert h == s[..|h|] == head;
    assert t == s[|h| + 1..] == tail;
  }

  /** `char::to_uppercase`, for ASCII letters only. */
  function UpperChar(c: char): char
  {
    if 'a' <= c <= 'z' then (c as int - 32) as char else c
  }

  /** `str::to_uppercase`, for ASCII letters only. */
  function Upper(s: string): (u: string)
    ensures |u| == |s| && forall i :: 0 <= i < |s| ==> u[i] == UpperChar(s[i])
  {
    if s == [] then [] else [UpperChar(s[0])] + Upper(s[1..])
  }

  /** A text without lower-case ASCII letters is its own upper case. */
  lemma {:induction false} UpperOfUpper(s: string)
    requires forall i :: 0 <= i < |s| ==> !('a' <= s[i] <= 'z')
    ensures Upper(s) == s
  {
    if s != [] {
      UpperOfUpper(s[1..]);
    }
  }

  /** `fuzz::ratio`: a similarity score of two texts, from a library the
      model does not see; every property below holds for any such function. */
  type Ratio = (string, string) -> int

  /** The four gates on the texts `link` extracts: the cities agree in upper
      case, the whole addresses have the same digits, the house numbers are
      equal, and the upper-case streets score above 80. */
  predicate Gates(emeraldAddress: string, emeraldCity: string, emeraldNumbers: string, emeraldStreet: string,
                  fccAddress: string, fccCity: string, fccNumbers: string, fccStreet: string, ratio: Ratio)
  {
    && Upper(emeraldCity) == Upper(fccCity)
    && Digits(emeraldAddress) == Digits(fccAddress)
    && emeraldNumbers == fccNumbers
    && ratio(Upper(emeraldStreet), Upper(fccStreet)) > 80
  }

  /** The body of the scan: does location `y` match subscription `x`? All
      four text fields must be present, the two addresses must contain a
      space and the city-state-zip text a comma; then the city before the
      comma, the house numbers before the first space and the streets after
      it must pass the gates. */
  predicate Matches(x: SubscriptionApiItem, y: FccRecord, ratio: Ratio)
  {
    if x.customer.serviceAddress.None? || x.customer.serviceCityStZip.None? || y.addressPrimary.None? || y.city.None?
    then false
    else
      var emeraldAddress := x.customer.serviceAddress.value;
      var fccAddress := y.addressPrimary.value;
      var emeraldSplit := SplitOnce(emeraldAddress, ' ');
      var citySplit := SplitOnce(x.customer.serviceCityStZip.value, ',');
      var fccSplit := SplitOnce(fccAddress, ' ');
      && emeraldSplit.Some? && citySplit.Some? && fccSplit.Some?
      && Gates(emeraldAddress, citySplit.value.0, emeraldSplit.value.0, emeraldSplit.value.1,
               fccAddress, y.city.value, fccSplit.value.0, fccSplit.value.1, ratio)
  }

  /** The four gates in terms of the texts themselves: given the house number
      and street either side of each address's first space, and the city before
      the first comma, a location matches exactly when the four gates pass. */
  lemma MatchesIff(x: SubscriptionApiItem, y: FccRecord, ratio: Ratio,
                   number: string, street: string, city: string, rest: string,
                   fccNumber: string, fccStreet: string, fccCity: string)
    requires x.customer.serviceAddress == Some(number + " " + street) && ' ' !in number
    requires x.customer.serviceCityStZip == Some(city + "," + rest) && ',' !in city
    requires y.addressPrimary == Some(fccNumber + " " + fccStreet) && ' ' !in fccNumber
    requires y.city == Some(fccCity)
    ensures Matches(x, y, ratio) <==>
      Gates(number + " " + street, city, number, street, fccNumber + " " + fccStreet, fccCity, fccNumber, fccStreet, ratio)
  {
    var emeraldAddress := x.customer.serviceAddress.value;
    var fccAddress := y.addressPrimary.value;
    assert SplitOnce(emeraldAddress, ' ') == Some((number, street)) by {
      SplitOnceAt(emeraldAddress, ' ', number, street);
    }
    assert SplitOnce(x.customer.serviceCityStZip.value, ',') == Some((city, rest)) by {
      SplitOnceAt(x.customer.serviceCityStZip.value, ',', city, rest);
    }
    assert SplitOnce(fccAddress, ' ') == Some((fccNumber, fccStreet)) by {
      SplitOnceAt(fccAddress, ' ', fccNumber, fccStreet);
    }
  }

  /** No location matches a subscription without a service address with a
      space in it, or without a city-state-zip text with a comma in it; and
      no subscription matches a location without a city or without an
      address with a space in it. */
  lemma MatchesNeedsFields(x: SubscriptionApiItem, y: FccRecord, ratio: Ratio)
    requires Matches(x, y, ratio)
    ensures x.customer.serviceAddress.Some? && ' ' in x.customer.serviceAddress.value
    ensures x.customer.serviceCityStZip.Some? && ',' in x.customer.serviceCityStZip.value
    ensures y.addressPrimary.Some? && ' ' in y.addressPrimary.value
    ensures y.city.Some?
  {
  }

  /** The house numbers must be equal: locations whose house number differs
      from the subscription's never match, whatever the digits, cities and
      street score. */
  lemma HouseNumbersMustAgree(x: SubscriptionApiItem, y: FccRecord, ratio: Ratio,
                              number: string, street: string, fccNumber: string, fccStreet: string)
    requires x.customer.serviceAddress == Some(number + " " + street) && ' ' !in number
    requires y.addressPrimary == Some(fccNumber + " " + fccStreet) && ' ' !in fccNumber
    requires number != fccNumber
    ensures !Matches(x, y, ratio)
  {
    if Matches(x, y, ratio) {
      MatchesNeedsFields(x, y, ratio);
      var (city, rest) := SplitOnce(x.customer.serviceCityStZip.value, ',').value;
      MatchesIff(x, y, ratio, number, street, city, rest, fccNumber, fccStreet, y.city.value);
    }
  }

  /** "12-A MAIN ST" and "12A MAIN ST" have the same digits. */
  lemma HouseNumberDigits()
    ensures Digits("12-A MAIN ST") == "12" == Digits("12A MAIN ST")
  {
    assert "12-A MAIN ST" == "12" + "-A MAIN ST";
    assert "12A MAIN ST" == "12" + "A MAIN ST";
    assert Digits("12" + "-A MAIN ST") == "12" by {
      DigitsOfNumberedAddress("12", "-A MAIN ST");
    }
    DigitsOfNumberedAddress("12", "A MAIN ST");
  }

  /** How "12-A MAIN ST" and "12A MAIN ST" split at their first space. */
  lemma HouseNumberSplits()
    ensures "12-A MAIN ST" == "12-A" + " " + "MAIN ST" && ' ' !in "12-A"
    ensures "12A MAIN ST" == "12A" + " " + "MAIN ST" && ' ' !in "12A"
    ensures "12-A" != "12A"
  {
    assert |"12-A"| != |"12A"|;
  }

  /** The house-number gate is not implied by the digit gate: "12-A MAIN ST"
      and "12A MAIN ST" have the same digits and never match. */
  lemma HouseNumberGateIsSeparate(x: SubscriptionApiItem, y: FccRecord, ratio: Ratio)
    requires x.customer.serviceAddress == Some("12-A MAIN ST")
    requires y.addressPrimary == Some("12A MAIN ST")
    ensures Digits("12-A MAIN ST") == Digits("12A MAIN ST")
    ensures !Matches(x, y, ratio)
  {
    HouseNumberDigits();
    HouseNumberSplits();
    HouseNumbersMustAgree(x, y, ratio, "12-A", "MAIN ST", "12A", "MAIN ST");
  }

  /** A subscription paired with a single location it matches is linked to it. */
  lemma LinkedSingle(x: SubscriptionApiItem, y: FccRecord, ratio: Ratio)
    requires Matches(x, y, ratio)
    ensures Linked([y], [x], ratio) == [(y, x)]
  {
    assert FirstMatch(x, [y], ratio) == Some(0);
    assert [x][1..] == [];
  }

  /** An address made of a house number of digits followed by text without
      digits has the house number as its `digits`. */
  lemma DigitsOfNumberedAddress(number: string, rest: string)
    requires forall i :: 0 <= i < |number| ==> IsAsciiDigit(number[i])
    requires forall i :: 0 <= i < |rest| ==> !IsAsciiDigit(rest[i])
    ensures Digits(number + rest) == number
  {
    DigitsAppend(number, rest);
    DigitsOfDigitText(number);
    DigitsOfNonDigitText(rest);
  }

  /** Upper case changes neither of two texts without lower-case letters. */
  lemma UpperOfUpperPair(a: string, b: string)
    requires forall i :: 0 <= i < |a| ==> !('a' <= a[i] <= 'z')
    requires forall i :: 0 <= i < |b| ==> !('a' <= b[i] <= 'z')
    ensures Upper(a) == a && Upper(b) == b
  {
    UpperOfUpper(a);
    UpperOfUpper(b);
  }

  /** "100 MAIN STREET" and "100 MAIN ST" have the digits "100". */
  lemma SpringfieldDigits()
    ensures Digits("100 MAIN STREET") == "100" == Digits("100 MAIN ST")
  {
    assert "100 MAIN STREET" == "100" + " MAIN STREET";
    assert "100 MAIN ST" == "100" + " MAIN ST";
    assert Digits("100" + " MAIN STREET") == "100" by {
      DigitsOfNumberedAddress("100", " MAIN STREET");
    }
    DigitsOfNumberedAddress("100", " MAIN ST");
  }

  /** How the Springfield texts split at their first space or comma. */
  lemma SpringfieldSplits()
    ensures "100 MAIN STREET" == "100" + " " + "MAIN STREET" && ' ' !in "100"
    ensures "SPRINGFIELD, OR 97401" == "SPRINGFIELD" + "," + " OR 97401" && ',' !in "SPRINGFIELD"
    ensures "100 MAIN ST" == "100" + " " + "MAIN ST"
  {
  }

  /** A subscription at "100 MAIN STREET", "SPRINGFIELD, OR 97401" matches a
      location at "100 MAIN ST" in "SPRINGFIELD" whenever the street score of
      "MAIN STREET" against "MAIN ST" is above 80, and the two are linked. */
  lemma SpringfieldLinks(x: SubscriptionApiItem, y: FccRecord, ratio: Ratio)
    requires x.customer.serviceAddress == Some("100 MAIN STREET")
    requires x.customer.serviceCityStZip == Some("SPRINGFIELD, OR 97401")
    requires y.addressPrimary == Some("100 MAIN ST") && y.city == Some("SPRINGFIELD")
    requires ratio("MAIN STREET", "MAIN ST") > 80
    ensures Matches(x, y, ratio)
    ensures Linked([y], [x], ratio) == [(y, x)]
  {
    SpringfieldSplits();
    UpperOfUpperPair("MAIN STREET", "MAIN ST");
    SpringfieldDigits();
    MatchesIff(x, y, ratio, "100", "MAIN STREET", "SPRINGFIELD", " OR 97401", "100", "MAIN ST", "SPRINGFIELD");
    LinkedSingle(x, y, ratio);
  }

  /** The street threshold is strict: a score of exactly 80 does not match. */
  lemma StreetThresholdIsStrict(x: SubscriptionApiItem, y: FccRecord, ratio: Ratio,
                                number: string, street: string, fccNumber: string, fccStreet: string)
    requires x.customer.serviceAddress == Some(number + " " + street) && ' ' !in number
    requires y.addressPrimary == Some(fccNumber + " " + fccStreet) && ' ' !in fccNumber
    requires ratio(Upper(street), Upper(fccStreet)) == 80
    ensures !Matches(x, y, ratio)
  {
    if Matches(x, y, ratio) {
      MatchesNeedsFields(x, y, ratio);
      var (city, rest) := SplitOnce(x.customer.serviceCityStZip.value, ',').value;
      MatchesIff(x, y, ratio, number, street, city, rest, fccNumber, fccStreet, y.city.value);
    }
  }

  /** The position of the first location that matches `x`, if any. */
  function FirstMatch(x: SubscriptionApiItem, fcc: seq<FccRecord>, ratio: Ratio): (r: Option<nat>)
    ensures r.Some? ==> r.value < |fcc| && Matches(x, fcc[r.value], ratio)
    ensures r.Some? ==> forall k :: 0 <= k < r.value ==> !Matches(x, fcc[k], ratio)
    ensures r.None? ==> forall k :: 0 <= k < |fcc| ==> !Matches(x, fcc[k], ratio)
  {
    if fcc == [] then None
    else if Matches(x, fcc[0], ratio) then Some(0)
    else
      var rest := FirstMatch(x, fcc[1..], ratio);
      assert forall k :: 1 <= k < |fcc| ==> fcc[k] == fcc[1..][k - 1];
      if rest.None? then None else Some(rest.value + 1)
  }

  /** The first match is the one position that matches with no match before it. */
  lemma FirstMatchAt(x: SubscriptionApiItem, fcc: seq<FccRecord>, ratio: Ratio, j: nat)
    requires j < |fcc| && Matches(x, fcc[j], ratio)
    requires forall k :: 0 <= k < j ==> !Matches(x, fcc[k], ratio)
    ensures FirstMatch(x, fcc, ratio) == Some(j)
  {
  }

  /** The pair `link` produces for one subscription: the subscription with
      the first matching location, or nothing. */
  function LinkOne(x: SubscriptionApiItem, fcc: seq<FccRecord>, ratio: Ratio): Option<(FccRecord, SubscriptionApiItem)>
  {
    match FirstMatch(x, fcc, ratio)
    case None => None
    case Some(k) => Some((fcc[k], x))
  }

  /** A subscription's pair holds the subscription and a location that matches
      it; it has none only when no location matches it. */
  lemma LinkOneMeaning(x: SubscriptionApiItem, fcc: seq<FccRecord>, ratio: Ratio)
    ensures LinkOne(x, fcc, ratio).Some? ==>
      LinkOne(x, fcc, ratio).value.1 == x && Matches(x, LinkOne(x, fcc, ratio).value.0, ratio)
    ensures LinkOne(x, fcc, ratio).None? ==> forall k :: 0 <= k < |fcc| ==> !Matches(x, fcc[k], ratio)
  {
  }

  /** The pairs of the subscriptions that have one, in subscription order. */
  function Linked(fcc: seq<FccRecord>, emerald: seq<SubscriptionApiItem>, ratio: Ratio): (pairs: seq<(FccRecord, SubscriptionApiItem)>)
    ensures |pairs| <= |emerald|
  {
    if emerald == [] then []
    else
      match LinkOne(emerald[0], fcc, ratio)
      case None => Linked(fcc, emerald[1..], ratio)
      case Some(pair) => [pair] + Linked(fcc, emerald[1..], ratio)
  }

  /** Linking distributes over concatenation of the subscriptions: the output
      follows subscription order and each subscription's pair depends only on
      that subscription and the locations. */
  lemma {:induction false} LinkedAppend(fcc: seq<FccRecord>, a: seq<SubscriptionApiItem>, b: seq<SubscriptionApiItem>, ratio: Ratio)
    ensures Linked(fcc, a + b, ratio) == Linked(fcc, a, ratio) + Linked(fcc, b, ratio)
  {
    if a == [] {
      assert a + b == b;
    } else {
      assert (a + b)[0] == a[0] && (a + b)[1..] == a[1..] + b;
      LinkedAppend(fcc, a[1..], b, ratio);
    }
  }

  /** Linking one more subscription appends its pair, if it has one. */
  lemma LinkedSnoc(fcc: seq<FccRecord>, a: seq<SubscriptionApiItem>, x: SubscriptionApiItem, ratio: Ratio)
    ensures Linked(fcc, a + [x], ratio) ==
      Linked(fcc, a, ratio) + (if LinkOne(x, fcc, ratio).Some? then [LinkOne(x, fcc, ratio).value] else [])
  {
    LinkedAppend(fcc, a, [x], ratio);
    assert [x][1..] == [];
  }

  /** Soundness and first match: every pair is a subscription of the input
      with a location of the input that matches it, and no earlier location matches it. */
  lemma {:induction false} LinkedSound(fcc: seq<FccRecord>, emerald: seq<SubscriptionApiItem>, ratio: Ratio, p: (FccRecord, SubscriptionApiItem))
    requires p in Linked(fcc, emerald, ratio)
    ensures p.1 in emerald
    ensures exists k ::
      && 0 <= k < |fcc| && fcc[k] == p.0 && Matches(p.1, p.0, ratio)
      && forall j :: 0 <= j < k ==> !Matches(p.1, fcc[j], ratio)
  {
    if LinkOne(emerald[0], fcc, ratio) == Some(p) {
      var k := FirstMatch(emerald[0], fcc, ratio).value;
      assert fcc[k] == p.0;
    } else {
      LinkedSound(fcc, emerald[1..], ratio, p);
    }
  }

  /** Completeness: a subscription of the input is linked exactly when some location matches it. */
  lemma {:induction false} LinkedComplete(fcc: seq<FccRecord>, emerald: seq<SubscriptionApiItem>, ratio: Ratio, x: SubscriptionApiItem)
    requires x in emerald
    ensures (exists p :: p in Linked(fcc, emerald, ratio) && p.1 == x) <==>
      (exists k :: 0 <= k < |fcc| && Matches(x, fcc[k], ratio))
  {
    if x == emerald[0] {
      match FirstMatch(x, fcc, ratio)
      case None =>
        if exists p :: p in Linked(fcc, emerald, ratio) && p.1 == x {
          var p :| p in Linked(fcc, emerald, ratio) && p.1 == x;
          LinkedSound(fcc, emerald, ratio, p);
        }
      case Some(k) =>
        assert (fcc[k], x) in Linked(fcc, emerald, ratio);
    } else {
      LinkedComplete(fcc, emerald[1..], ratio, x);
      if exists p :: p in Linked(fcc, emerald, ratio) && p.1 == x {
        var p :| p in Linked(fcc, emerald, ratio) && p.1 == x;
        LinkedSound(fcc, emerald, ratio, p);
      }
    }
  }

  /** A subscription without a service address with a space in it, or without
      a city-state-zip text with a comma in it, is never linked; no location
      without a city or without an address with a space in it is ever chosen. */
  lemma LinkedNeedsFields(fcc: seq<FccRecord>, emerald: seq<SubscriptionApiItem>, ratio: Ratio, p: (FccRecord, SubscriptionApiItem))
    requires p in Linked(fcc, emerald, ratio)
    ensures p.1.customer.serviceAddress.Some? && ' ' in p.1.customer.serviceAddress.value
    ensures p.1.customer.serviceCityStZip.Some? && ',' in p.1.customer.serviceCityStZip.value
    ensures p.0.addressPrimary.Some? && ' ' in p.0.addressPrimary.value && p.0.city.Some?
  {
    LinkedSound(fcc, emerald, ratio, p);
    MatchesNeedsFields(p.1, p.0, ratio);
  }

  /** The closure `link` runs for one subscription: scan the locations in
      order and stop at the first that matches. */
  method LinkSubscription(x: SubscriptionApiItem, fcc: seq<FccRecord>, ratio: Ratio)
    returns (linked: Option<(FccRecord, SubscriptionApiItem)>)
    ensures linked == LinkOne(x, fcc, ratio)
  {
    linked := None;
    var j := 0;
    while j < |fcc|
      invariant 0 <= j <= |fcc|
      invariant forall k :: 0 <= k < j ==> !Matches(x, fcc[k], ratio)
    {
      if Matches(x, fcc[j], ratio) {
        FirstMatchAt(x, fcc, ratio, j);
        linked := Some((fcc[j], x));
        break;
      }
      j := j + 1;
    }
  }

  /** `link`: each subscription in order, paired with its first matching
      location or dropped when none matches. */
  method Link(fcc: seq<FccRecord>, emerald: seq<SubscriptionApiItem>, ratio: Ratio)
    returns (linked: seq<(FccRecord, SubscriptionApiItem)>)
    ensures linked == Linked(fcc, emerald, ratio)
  {
    linked := [];
    for i := 0 to |emerald|
      invariant linked == Linked(fcc, emerald[..i], ratio)
    {
      var pair := LinkSubscription(emerald[i], fcc, ratio);
      assert emerald[..i + 1] == emerald[..i] + [emerald[i]];
      LinkedSnoc(fcc, emerald[..i], emerald[i], ratio);
      if pair.Some? {
        linked := linked + [pair.value];
      }
    }
    assert emerald[..|emerald|] == emerald;
  }
}
