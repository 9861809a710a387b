/** The crate root (src/lib.rs) declares its own `ProductType` and its own
    copy of `PRODUCT_CODES`, keyed by string slices. This module models that
    copy and proves it agrees, entry for entry, with the one in src/emerald.rs. */
module Lib {
  import opened RustTypes
  import Emerald

  datatype ProductType = Internet(profile: (u8, u16, u16)) | Voip | Fax | Admin

  /** The literal array the crate root's `PRODUCT_CODES` is built from, in source order. */
  const ProductCodeEntries: seq<(string, ProductType)> := [
    ("fttp1000", Internet((50, 1000, 1000))),
    ("fttp800", Internet((50, 800, 800))),
    ("fttp400", Internet((50, 400, 400))),
    ("fttp250", Internet((50, 250, 250))),
    ("fttp100", Internet((50, 100, 100))),
    ("fttp25", Internet((50, 25, 25))),
    ("fw25", Internet((70, 25, 25))),
    ("fw50", Internet((70, 50, 50))),
    ("fw75", Internet((70, 75, 75))),
    ("fw100", Internet((70, 100, 100))),
    ("ens1g", Internet((50, 1000, 1000))),
    ("enscustom", Internet((50, 1000, 1000))),
    ("ens100mbps", Internet((50, 100, 100))),
    ("gf100", Internet((10, 100, 100))),
    ("voipfax", Voip),
    ("voippbxr", Voip),
    ("voiprpxr", Voip),
    ("voipbus", Voip),
    ("fax2email", Fax),
    ("installation-quote", Admin),
    ("paymentagreement", Admin),
    ("pre-reg", Admin),
    ("service-call-quote", Admin),
    ("acp", Admin),
    ("ipv427", Admin),
    ("ipv428", Admin),
    ("ipv429", Admin),
    ("ipstatic", Admin)
  ]

  /** The crate root's `PRODUCT_CODES`. */
  const ProductCodes: map<string, ProductType> := HashMapFrom(ProductCodeEntries)

  /** The same classification in the type src/emerald.rs declares. */
  function ToEmerald(p: ProductType): Emerald.ProductType
  {
    match p
    case Internet(profile) => Emerald.Internet(profile)
    case Voip => Emerald.Voip
    case Fax => Emerald.Fax
    case Admin => Emerald.Admin
  }

  /** Entries `lo` to `hi` - 1 of the two literal arrays agree. */
  predicate EntriesAgreeBetween(lo: int, hi: int)
    requires 0 <= lo <= hi <= |ProductCodeEntries| == |Emerald.ProductCodeEntries|
  {
    forall i :: lo <= i < hi ==>
      ProductCodeEntries[i].0 == Emerald.ProductCodeEntries[i].0 &&
      ToEmerald(ProductCodeEntries[i].1) == Emerald.ProductCodeEntries[i].1
  }

  /** The Internet entries agree. */
  lemma InternetEntriesAgree()
    ensures EntriesAgreeBetween(0, 14)
  {
  }

  /** The other entries agree. */
  lemma OtherEntriesAgree()
    ensures EntriesAgreeBetween(14, 28)
  {
  }

  /** The two literal arrays list the same codes with the same classifications, in the same order. */
  lemma EntriesAgree()
    ensures |ProductCodeEntries| == |Emerald.ProductCodeEntries|
    ensures forall i :: 0 <= i < |ProductCodeEntries| ==>
      ProductCodeEntries[i].0 == Emerald.ProductCodeEntries[i].0 &&
      ToEmerald(ProductCodeEntries[i].1) == Emerald.ProductCodeEntries[i].1
  {
    InternetEntriesAgree();
    OtherEntriesAgree();
  }

  /** The two tables have the same 28 codes and classify each of them the same way. */
  lemma TablesAgree()
    ensures ProductCodes.Keys == Emerald.ProductCodes.Keys
    ensures |ProductCodes| == 28
    ensures forall k :: k in ProductCodes ==> ToEmerald(ProductCodes[k]) == Emerald.ProductCodes[k]
  {
    EntriesAgree();
    HashMapFromMapped(ProductCodeEntries, Emerald.ProductCodeEntries, ToEmerald);
    Emerald.ProductCodesSize();
  }

  /** A code has the same kind in both tables. */
  lemma KindsAgree()
    ensures ProductCodes.Keys == Emerald.ProductCodes.Keys
    ensures forall k :: k in ProductCodes ==>
      && (ProductCodes[k].Voip? <==> Emerald.ProductCodes[k].Voip?)
      && (ProductCodes[k].Fax? <==> Emerald.ProductCodes[k].Fax?)
      && (ProductCodes[k].Admin? <==> Emerald.ProductCodes[k].Admin?)
  {
    TablesAgree();
  }

  /** The Voip codes are exactly `voipfax`, `voippbxr`, `voiprpxr` and `voipbus`;
      the Fax code is exactly `fax2email`. */
  lemma VoipAndFaxCodes()
    ensures (set k | k in ProductCodes && ProductCodes[k].Voip?) == {"voipfax", "voippbxr", "voiprpxr", "voipbus"}
    ensures (set k | k in ProductCodes && ProductCodes[k].Fax?) == {"fax2email"}
  {
    KindsAgree();
    Emerald.VoipCodesExactly();
    Emerald.FaxCodesExactly();
    assert (set k | k in ProductCodes && ProductCodes[k].Voip?) == Emerald.VoipCodes;
    assert (set k | k in ProductCodes && ProductCodes[k].Fax?) == Emerald.FaxCodes;
  }

  /** There are nine Admin codes, among them `acp`, `ipstatic` and `ipv427` to `ipv429`. */
  lemma AdminCodes()
    ensures |set k | k in ProductCodes && ProductCodes[k].Admin?| == 9
    ensures {"acp", "ipstatic", "ipv427", "ipv428", "ipv429"} <= set k | k in ProductCodes && ProductCodes[k].Admin?
  {
    KindsAgree();
    Emerald.AdminCodesExactly();
    assert (set k | k in ProductCodes && ProductCodes[k].Admin?) == Emerald.AdminCodes;
  }

  /** Every Internet profile is symmetric and uses technology code 10, 50 or 70. */
  lemma InternetProfilesWellFormed()
    ensures forall k :: k in ProductCodes && ProductCodes[k].Internet? ==>
      var (tech, a, b) := ProductCodes[k].profile;
      a == b && tech in {10, 50, 70}
  {
    TablesAgree();
    Emerald.InternetProfilesWellFormed();
    forall k | k in ProductCodes && ProductCodes[k].Internet?
      ensures var (tech, a, b) := ProductCodes[k].profile; a == b && tech in {10, 50, 70}
    {
      assert Emerald.ProductCodes[k] == Emerald.Internet(ProductCodes[k].profile);
    }
  }
}
