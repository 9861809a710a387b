/** The billing side (src/emerald.rs): the product-code taxonomy and the
    parts of a subscription export that address linking reads. */
module Emerald {
  import opened RustTypes

  /** A billing plan's classification. An `Internet` profile is a triple
      (technology code, bandwidth, bandwidth): the source leaves the tuple
      components unnamed, and every entry of the table repeats the
      bandwidth, so which of the two is upload does not matter. */
  datatype ProductType = Internet(profile: (u8, u16, u16)) | Voip | Fax | Admin

  /** The literal array `PRODUCT_CODES` is built from, in source order. */
  const ProductCodeEntries: seq<(string, ProductType)> := [
    ("fttp1000", Internet((50, 1000, 1000))),
    ("fttp800", Internet((50, 800, 800))),
    ("fttp400", Internet((50, 400, 400))),
    ("fttp250", Internet((50, 250, 250))),
    ("fttp100", Internet((50, 100, 100))),
    ("fttp25", Internet((50, 25, 25))),
    ("fw25", Internet((70, 25, 25))),
    ("fw50", Internet((70, 50, 50))),
    ("fw75", Internet((70, 75, 75))),
    ("fw100", Internet((70, 100, 100))),
    ("ens1g", Internet((50, 1000, 1000))),
    ("enscustom", Internet((50, 1000, 1000))),
    ("ens100mbps", Internet((50, 100, 100))),
    ("gf100", Internet((10, 100, 100))),
    ("voipfax", Voip),
    ("voippbxr", Voip),
    ("voiprpxr", Voip),
    ("voipbus", Voip),
    ("fax2email", Fax),
    ("installation-quote", Admin),
    ("paymentagreement", Admin),
    ("pre-reg", Admin),
    ("service-call-quote", Admin),
    ("acp", Admin),
    ("ipv427", Admin),
    ("ipv428", Admin),
    ("ipv429", Admin),
    ("ipstatic", Admin)
  ]

  /** `PRODUCT_CODES`: plan code to classification. */
  const ProductCodes: map<string, ProductType> := HashMapFrom(ProductCodeEntries)

  /** The plan codes of each classification, as the table lists them. */
  const InternetCodes: set<string> := {
    "fttp1000", "fttp800", "fttp400", "fttp250", "fttp100", "fttp25",
    "fw25", "fw50", "fw75", "fw100", "ens1g", "enscustom", "ens100mbps", "gf100"
  }
  const VoipCodes: set<string> := {"voipfax", "voippbxr", "voiprpxr", "voipbus"}
  const FaxCodes: set<string> := {"fax2email"}
  const AdminCodes: set<string> := {
    "installation-quote", "paymentagreement", "pre-reg", "service-call-quote",
    "acp", "ipv427", "ipv428", "ipv429", "ipstatic"
  }

  /** The decimal rendering of a number, most significant digit first. */
  function DecimalText(n: nat): (s: string)
    ensures |s| > 0 && forall i :: 0 <= i < |s| ==> '0' <= s[i] <= '9'
  {
    var digit := ['0' + (n % 10) as char];
    if n < 10 then digit else DecimalText(n / 10) + digit
  }

  /** The 14 Internet entries have distinct keys. */
  lemma InternetKeysDistinct()
    ensures forall i, j :: 0 <= i < j < 14 ==> ProductCodeEntries[i].0 != ProductCodeEntries[j].0
  {
  }

  /** The other 14 entries have distinct keys. */
  lemma OtherKeysDistinct()
    ensures forall i, j :: 14 <= i < j < 28 ==> ProductCodeEntries[i].0 != ProductCodeEntries[j].0
  {
  }

  /** No Internet key is also the key of entries 14 to 20. */
  lemma InternetKeysNotInEntries14To20()
    ensures forall i, j :: 0 <= i < 14 <= j < 21 ==> ProductCodeEntries[i].0 != ProductCodeEntries[j].0
  {
  }

  /** No Internet key is also the key of entries 21 to 27. */
  lemma InternetKeysNotInEntries21To27()
    ensures forall i, j :: 0 <= i < 14 && 21 <= j < 28 ==> ProductCodeEntries[i].0 != ProductCodeEntries[j].0
  {
  }

  /** Every key of the literal array is different from every other. */
  lemma EntryKeysDistinct()
    ensures DistinctKeys(ProductCodeEntries)
  {
    InternetKeysDistinct();
    OtherKeysDistinct();
    InternetKeysNotInEntries14To20();
    InternetKeysNotInEntries21To27();
  }

  /** Each entry of the array is what the map holds for its key. */
  lemma ProductCodesLookup()
    ensures forall i :: 0 <= i < |ProductCodeEntries| ==>
      ProductCodeEntries[i].0 in ProductCodes && ProductCodes[ProductCodeEntries[i].0] == ProductCodeEntries[i].1
  {
    EntryKeysDistinct();
    HashMapFromDistinct(ProductCodeEntries);
  }

  /** The array's positions, one by one. */
  lemma EntryIndex(i: int)
    requires 0 <= i < |ProductCodeEntries|
    ensures i == 0 || i == 1 || i == 2 || i == 3 || i == 4 || i == 5 || i == 6 || i == 7 || i == 8 || i == 9 || i == 10 || i == 11 || i == 12 || i == 13 || i == 14 || i == 15 || i == 16 || i == 17 || i == 18 || i == 19 || i == 20 || i == 21 || i == 22 || i == 23 || i == 24 || i == 25 || i == 26 || i == 27
  {
  }

  /** Every key of the map comes from some entry of the array, and its value is that entry's. */
  lemma ProductCodesEntry(k: string) returns (i: nat)
    requires k in ProductCodes
    ensures i < |ProductCodeEntries| && ProductCodeEntries[i].0 == k
    ensures ProductCodes[k] == ProductCodeEntries[i].1
  {
    assert k in KeysOf(ProductCodeEntries);
    i :| 0 <= i < |ProductCodeEntries| && ProductCodeEntries[i].0 == k;
    ProductCodesLookup();
    EntryIndex(i);
  }

  /** The four lists hold 14, 4, 1 and 9 codes. */
  lemma InternetCodesSize() ensures |InternetCodes| == 14 {}
  lemma VoipCodesSize() ensures |VoipCodes| == 4 {}
  lemma AdminCodesSize() ensures |AdminCodes| == 9 {}

  /** No Internet code is in another list. */
  lemma InternetCodesApart()
    ensures InternetCodes !! VoipCodes && InternetCodes !! AdminCodes && InternetCodes !! FaxCodes
  {
  }

  /** No code is in two of the four lists. */
  lemma CodeListsDisjoint()
    ensures InternetCodes !! VoipCodes && InternetCodes !! AdminCodes && VoipCodes !! AdminCodes
    ensures FaxCodes !! InternetCodes + VoipCodes + AdminCodes
  {
    InternetCodesApart();
  }

  /** Together the four lists hold 28 codes. */
  lemma CodeListsSized()
    ensures |InternetCodes + VoipCodes + FaxCodes + AdminCodes| == 28
  {
    InternetCodesSize();
    VoipCodesSize();
    AdminCodesSize();
    CodeListsDisjoint();
  }

  /** A subset as large as its superset is the whole superset. */
  lemma SubsetOfSameSize<T>(a: set<T>, b: set<T>)
    requires a <= b && |a| == |b|
    ensures a == b
  {
    assert |b - a| == 0;
  }

  /** Each entry's code is in the list of its classification. */
  lemma EntriesListed()
    ensures forall i :: 0 <= i < |ProductCodeEntries| ==>
      var (k, p) := ProductCodeEntries[i];
      && (p.Internet? ==> k in InternetCodes)
      && (p.Voip? ==> k in VoipCodes)
      && (p.Fax? ==> k in FaxCodes)
      && (p.Admin? ==> k in AdminCodes)
  {
    forall i | 0 <= i < |ProductCodeEntries|
      ensures var (k, p) := ProductCodeEntries[i];
        && (p.Internet? ==> k in InternetCodes)
        && (p.Voip? ==> k in VoipCodes)
        && (p.Fax? ==> k in FaxCodes)
        && (p.Admin? ==> k in AdminCodes)
    {
      EntryIndex(i);
    }
  }

  /** The classification of every code, by the list it is in. */
  lemma ProductCodesKinds()
    ensures forall k :: k in ProductCodes ==>
      && (ProductCodes[k].Internet? <==> k in InternetCodes)
      && (ProductCodes[k].Voip? <==> k in VoipCodes)
      && (ProductCodes[k].Fax? <==> k in FaxCodes)
      && (ProductCodes[k].Admin? <==> k in AdminCodes)
  {
    EntriesListed();
    CodeListsDisjoint();
    forall k | k in ProductCodes
      ensures ProductCodes[k].Internet? <==> k in InternetCodes
      ensures ProductCodes[k].Voip? <==> k in VoipCodes
      ensures ProductCodes[k].Fax? <==> k in FaxCodes
      ensures ProductCodes[k].Admin? <==> k in AdminCodes
    {
      assert k in KeysOf(ProductCodeEntries);
      var i :| 0 <= i < |ProductCodeEntries| && ProductCodeEntries[i].0 == k;
      ProductCodesLookup();
    }
  }

  /** The table has exactly 28 plan codes, those of the four lists. */
  lemma ProductCodesSize()
    ensures |ProductCodes| == 28
    ensures ProductCodes.Keys == InternetCodes + VoipCodes + FaxCodes + AdminCodes
  {
    EntryKeysDistinct();
    HashMapFromDistinct(ProductCodeEntries);
    ProductCodesKinds();
    CodeListsSized();
    SubsetOfSameSize(ProductCodes.Keys, InternetCodes + VoipCodes + FaxCodes + AdminCodes);
  }

  /** The table's 14 Internet codes. */
  lemma InternetCodesExactly()
    ensures (set k | k in ProductCodes && ProductCodes[k].Internet?) == InternetCodes
    ensures |InternetCodes| == 14
  {
    ProductCodesKinds();
    ProductCodesSize();
    InternetCodesSize();
  }

  /** The table's 4 Voip codes. */
  lemma VoipCodesExactly()
    ensures (set k | k in ProductCodes && ProductCodes[k].Voip?) == VoipCodes
    ensures |VoipCodes| == 4
  {
    ProductCodesKinds();
    ProductCodesSize();
    VoipCodesSize();
  }

  /** The table's one Fax code. */
  lemma FaxCodesExactly()
    ensures (set k | k in ProductCodes && ProductCodes[k].Fax?) == FaxCodes
    ensures |FaxCodes| == 1
  {
    ProductCodesKinds();
    ProductCodesSize();
  }

  /** The table's 9 Admin codes. */
  lemma AdminCodesExactly()
    ensures (set k | k in ProductCodes && ProductCodes[k].Admin?) == AdminCodes
    ensures |AdminCodes| == 9
  {
    ProductCodesKinds();
    ProductCodesSize();
    AdminCodesSize();
  }

  /** `voipfax` is a Voip product, and `fax2email` is the one Fax product. */
  lemma FaxIsOnlyFax2Email()
    ensures "voipfax" in ProductCodes && ProductCodes["voipfax"] == Voip
    ensures forall k :: k in ProductCodes && ProductCodes[k] == Fax <==> k == "fax2email"
  {
    ProductCodesKinds();
    ProductCodesSize();
  }

  /** Every Internet profile is symmetric and uses technology code 10, 50 or 70. */
  lemma InternetProfilesWellFormed()
    ensures forall k :: k in ProductCodes && ProductCodes[k].Internet? ==>
      var (tech, a, b) := ProductCodes[k].profile;
      a == b && tech in {10, 50, 70}
  {
    forall k | k in ProductCodes && ProductCodes[k].Internet?
      ensures var (tech, a, b) := ProductCodes[k].profile; a == b && tech in {10, 50, 70}
    {
      var i := ProductCodesEntry(k);
    }
  }

  /** Appending a digit to a positive number appends it to the rendering. */
  lemma DecimalTextDigit(n: nat, d: nat)
    requires 0 < n && d < 10
    ensures DecimalText(10 * n + d) == DecimalText(n) + ['0' + d as char]
  {
    assert (10 * n + d) % 10 == d && (10 * n + d) / 10 == n;
  }

  /** The renderings of the fixed-wireless bandwidths. */
  lemma SmallBandwidthTexts()
    ensures DecimalText(25) == "25" && DecimalText(50) == "50" && DecimalText(75) == "75"
    ensures DecimalText(100) == "100"
  {
    DecimalTextDigit(2, 5);
    DecimalTextDigit(5, 0);
    DecimalTextDigit(7, 5);
    DecimalTextDigit(1, 0);
    DecimalTextDigit(10, 0);
  }

  /** The renderings of the larger fibre bandwidths. */
  lemma LargeBandwidthTexts()
    ensures DecimalText(250) == "250" && DecimalText(400) == "400"
    ensures DecimalText(800) == "800" && DecimalText(1000) == "1000"
  {
    SmallBandwidthTexts();
    DecimalTextDigit(25, 0);
    DecimalTextDigit(4, 0);
    DecimalTextDigit(40, 0);
    DecimalTextDigit(8, 0);
    DecimalTextDigit(80, 0);
    DecimalTextDigit(100, 0);
  }

  /** Only the first six entries have an `fttp` code. */
  lemma FttpEntries()
    ensures forall i :: 0 <= i < |ProductCodeEntries| && "fttp" <= ProductCodeEntries[i].0 ==> i < 6
  {
    forall i | 0 <= i < |ProductCodeEntries| && "fttp" <= ProductCodeEntries[i].0
      ensures i < 6
    {
      var k := ProductCodeEntries[i].0;
      assert k[1] == 't';
      EntryIndex(i);
    }
  }

  /** Only entries 6 to 9 have an `fw` code. */
  lemma FixedWirelessEntries()
    ensures forall i :: 0 <= i < |ProductCodeEntries| && "fw" <= ProductCodeEntries[i].0 ==> 6 <= i < 10
  {
    forall i | 0 <= i < |ProductCodeEntries| && "fw" <= ProductCodeEntries[i].0
      ensures 6 <= i < 10
    {
      var k := ProductCodeEntries[i].0;
      assert k[1] == 'w';
      EntryIndex(i);
    }
  }

  /** Only entries 10 to 12 have an `ens` code. */
  lemma EnsEntries()
    ensures forall i :: 0 <= i < |ProductCodeEntries| && "ens" <= ProductCodeEntries[i].0 ==> 10 <= i < 13
  {
    forall i | 0 <= i < |ProductCodeEntries| && "ens" <= ProductCodeEntries[i].0
      ensures 10 <= i < 13
    {
      var k := ProductCodeEntries[i].0;
      assert k[0] == 'e';
      EntryIndex(i);
    }
  }

  /** Entries 0 to 2 are named `fttp` and their bandwidth. */
  lemma FastFttpEntryNames()
    ensures ProductCodeEntries[0].0 == "fttp" + DecimalText(1000)
    ensures ProductCodeEntries[1].0 == "fttp" + DecimalText(800)
    ensures ProductCodeEntries[2].0 == "fttp" + DecimalText(400)
  {
    LargeBandwidthTexts();
  }

  /** Entries 3 to 5 are named `fttp` and their bandwidth. */
  lemma SlowFttpEntryNames()
    ensures ProductCodeEntries[3].0 == "fttp" + DecimalText(250)
    ensures ProductCodeEntries[4].0 == "fttp" + DecimalText(100)
    ensures ProductCodeEntries[5].0 == "fttp" + DecimalText(25)
  {
    LargeBandwidthTexts();
  }

  /** Entries 0 to 5 are fibre (technology 50), each named `fttp` and its bandwidth. */
  lemma FttpEntryProfiles()
    ensures forall i :: 0 <= i < 6 ==>
      var (k, p) := ProductCodeEntries[i];
      p.Internet? && p.profile.0 == 50 && k == "fttp" + DecimalText(p.profile.1 as nat)
  {
    FastFttpEntryNames();
    SlowFttpEntryNames();
  }

  /** `fttpN` is fibre (technology 50) at N Mbps. */
  lemma FttpProfiles()
    ensures forall k :: k in ProductCodes && "fttp" <= k ==>
      ProductCodes[k].Internet? && ProductCodes[k].profile.0 == 50 &&
      k == "fttp" + DecimalText(ProductCodes[k].profile.1 as nat)
  {
    FttpEntries();
    FttpEntryProfiles();
    forall k | k in ProductCodes && "fttp" <= k
      ensures ProductCodes[k].Internet? && ProductCodes[k].profile.0 == 50
      ensures k == "fttp" + DecimalText(ProductCodes[k].profile.1 as nat)
    {
      var i := ProductCodesEntry(k);
    }
  }

  /** Entries 6 to 9 are fixed wireless (technology 70), each named `fw` and its bandwidth. */
  lemma FixedWirelessEntryProfiles()
    ensures forall i :: 6 <= i < 10 ==>
      var (k, p) := ProductCodeEntries[i];
      p.Internet? && p.profile.0 == 70 && k == "fw" + DecimalText(p.profile.1 as nat)
  {
    SmallBandwidthTexts();
    assert ProductCodeEntries[6].0 == "fw" + DecimalText(25);
    assert ProductCodeEntries[7].0 == "fw" + DecimalText(50);
    assert ProductCodeEntries[8].0 == "fw" + DecimalText(75);
    assert ProductCodeEntries[9].0 == "fw" + DecimalText(100);
  }

  /** `fwN` is fixed wireless (technology 70) at N Mbps. */
  lemma FixedWirelessProfiles()
    ensures forall k :: k in ProductCodes && "fw" <= k ==>
      ProductCodes[k].Internet? && ProductCodes[k].profile.0 == 70 &&
      k == "fw" + DecimalText(ProductCodes[k].profile.1 as nat)
  {
    FixedWirelessEntries();
    FixedWirelessEntryProfiles();
    forall k | k in ProductCodes && "fw" <= k
      ensures ProductCodes[k].Internet? && ProductCodes[k].profile.0 == 70
      ensures k == "fw" + DecimalText(ProductCodes[k].profile.1 as nat)
    {
      var i := ProductCodesEntry(k);
    }
  }

  /** Entries 10 to 12 are fibre (technology 50); only `ens100mbps` is at 100, the others at 1000. */
  lemma EnsEntryProfiles()
    ensures forall i :: 10 <= i < 13 ==>
      var (k, p) := ProductCodeEntries[i];
      p.Internet? && p.profile.0 == 50 && p.profile.1 == (if k == "ens100mbps" then 100 else 1000)
  {
    assert ProductCodeEntries[10].0 != "ens100mbps";
    assert ProductCodeEntries[11].0 != "ens100mbps";
  }

  /** The `ens` codes are fibre (technology 50) at 1000 Mbps, except `ens100mbps` at 100. */
  lemma EnsProfiles()
    ensures forall k :: k in ProductCodes && "ens" <= k ==>
      ProductCodes[k].Internet? && ProductCodes[k].profile.0 == 50 &&
      ProductCodes[k].profile.1 == (if k == "ens100mbps" then 100 else 1000)
  {
    EnsEntries();
    EnsEntryProfiles();
    forall k | k in ProductCodes && "ens" <= k
      ensures ProductCodes[k].Internet? && ProductCodes[k].profile.0 == 50
      ensures ProductCodes[k].profile.1 == (if k == "ens100mbps" then 100 else 1000)
    {
      var i := ProductCodesEntry(k);
    }
  }

  /** `gf100` is technology 10 at 100 Mbps. */
  lemma Gf100Profile()
    ensures "gf100" in ProductCodes && ProductCodes["gf100"] == Internet((10, 100, 100))
  {
    ProductCodesLookup();
    assert ProductCodeEntries[13].0 == "gf100";
  }

  /** A plan code outside the 28 listed ones has no classification. */
  lemma UnknownCodeUnclassified(code: string)
    requires code !in InternetCodes + VoipCodes + FaxCodes + AdminCodes
    ensures code !in ProductCodes
  {
    ProductCodesSize();
  }

  /** The fields of `Customer` that address linking reads. */
  datatype Customer = Customer(serviceAddress: Option<string>, serviceCityStZip: Option<string>)

  /** The field of `Subscription` that selects its product. No member here
      reads it; it is kept so that an item carries the plan code the
      product table classifies. */
  datatype Subscription = Subscription(planId: Option<string>)

  /** One item of the subscription export: a subscription and its customer. */
  datatype SubscriptionApiItem = SubscriptionApiItem(subscription: Subscription, customer: Customer)
}
