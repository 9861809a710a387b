# fcc_reporting core in Dafny

This project models the core of `fcc_reporting`. The program prepares
broadband filings for the FCC by joining an ISP's billing subscriptions to the
FCC's serviceable-location records. Four pieces are modelled:

- **Address linking** (`src/analysis.rs`). `link` takes each subscription in
  order and scans the locations in order. The first location that passes four
  gates is paired with the subscription:
  - the city before the first comma of the subscription's city-state-zip
    equals the location's city, ignoring case;
  - both full addresses have the same digits;
  - the house numbers before the first space are equal;
  - the fuzzy score of the upper-case streets is above 80.

  A subscription that no location passes is dropped. `digits`, the `split_once`
  calls and the upper-casing are modelled as pure functions (`Analysis.Digits`,
  `Analysis.SplitOnce`, `Analysis.Upper`). The gate test is the predicate
  `Analysis.Matches`. A specification function `Analysis.Linked` states what
  is linked. The loops are the methods `Analysis.LinkSubscription` (the inner
  scan that stops at the first match) and `Analysis.Link` (the outer
  `filter_map`); each is proved equal to its specification.
- **Product-code taxonomy** (`src/emerald.rs`). `PRODUCT_CODES` maps 28 plan
  codes to a `ProductType`. The model builds the map from the literal entry
  list with `RustTypes.HashMapFrom`, which inserts entries in order as
  `HashMap::from` does. Lemmas give the map's exact contents by kind and the
  Internet speed profiles by family of code.
- **The duplicate table** (`src/lib.rs`). The crate root keeps a second
  `ProductType` and a second `PRODUCT_CODES`. `Lib.TablesAgree` proves that
  the two tables have the same keys and classify every key the same way.
- **Location record conversion** (`src/fcc.rs`). `utf8` decodes bytes as
  ISO/IEC 8859-1 (Latin-1): one character per byte, with the byte's value as
  its code point. The `From<FccByteRecord>` conversion decodes the text
  fields and sets the flag to true only for exactly "TRUE"; every other field
  is copied. `process_fcc_data` keeps the rows that deserialized, in row
  order.

Modules: `Emerald`, `Lib`, `Fcc` and `Analysis`, one per modelled source
file, and `RustTypes`, which stands for no source file and holds the Rust
vocabulary they share (Option, fixed-width integers, `HashMap::from`).

## Model

| member | source | states |
|---|---|---|
| Analysis.Digits | src/analysis.rs:4-6 | the result is no longer than the input and holds only ASCII digits |
| Analysis.DigitsAppend | src/analysis.rs:4-6 | digits of a concatenation is the concatenation of the digits, so the order is kept |
| Analysis.DigitsCount | src/analysis.rs:4-6 | every digit occurs in the result as often as in the input; no other character occurs |
| Analysis.DigitsOfDigitText | src/analysis.rs:4-6 | a text made only of digits is returned unchanged |
| Analysis.DigitsOfNonDigitText | src/analysis.rs:4-6 | a text without digits gives the empty text |
| Analysis.DigitsOfNumberedAddress | src/analysis.rs:4-6 | a digit house number followed by digit-free text gives the house number |
| Analysis.DigitsIdempotent | src/analysis.rs:4-6 | applying digits twice is the same as once |
| Analysis.SplitOnce | src/analysis.rs:35-39 | none exactly when the separator is absent; otherwise head + sep + tail is the text and the head has no separator |
| Analysis.SplitOnceAt | src/analysis.rs:35-39 | the split is the unique one at the first occurrence of the separator |
| Analysis.Upper | src/analysis.rs:42-50 | same length, each character upper-cased (ASCII letters only) |
| Analysis.UpperOfUpper | src/analysis.rs:42-50 | a text without lower-case letters is its own upper case |
| Analysis.Gates | src/analysis.rs:42-51 | defines the four gates on the extracted texts: upper-case cities equal, digits of the full addresses equal, house numbers equal, upper-case street score above 80 |
| Analysis.Matches | src/analysis.rs:18-52 | defines when a location matches a subscription: all four texts present, both addresses split at a space and the city-state-zip at a comma, and the gates pass on the parts |
| Analysis.MatchesIff | src/analysis.rs:18-52 | given the first-space and first-comma splits, a location matches exactly when the four gates pass on the house numbers, streets and city those splits give |
| Analysis.MatchesNeedsFields | src/analysis.rs:18-40 | a match needs both subscription texts and both location texts, a space in each address and a comma in the city-state-zip |
| Analysis.HouseNumbersMustAgree | src/analysis.rs:35-46 | different house numbers never match, whatever the digits, cities and score |
| Analysis.HouseNumberGateIsSeparate | src/analysis.rs:44-46 | "12-A MAIN ST" and "12A MAIN ST" have the same digits and still never match |
| Analysis.StreetThresholdIsStrict | src/analysis.rs:48-51 | a street score of exactly 80 does not match |
| Analysis.SpringfieldLinks | src/analysis.rs:12-63 | "100 MAIN STREET", "SPRINGFIELD, OR 97401" matches and is linked to "100 MAIN ST" in "SPRINGFIELD", provided the street score of "MAIN STREET" against "MAIN ST" is above 80; that score is a premise, not derived, since the scoring function is a parameter |
| Analysis.FirstMatch | src/analysis.rs:15-56 | the earliest matching location, or none when no location matches |
| Analysis.FirstMatchAt | src/analysis.rs:17-55 | a matching position with no match before it is the first match |
| Analysis.LinkOneMeaning | src/analysis.rs:15-61 | a subscription's pair holds that subscription and a location that matches it; there is none only when no location matches |
| Analysis.LinkOne | src/analysis.rs:15-61 | defines the closure's result: the subscription paired with the location at the first match, or none |
| Analysis.Linked | src/analysis.rs:12-63 | at most one pair per subscription |
| Analysis.LinkedAppend | src/analysis.rs:12-14 | linking distributes over concatenation: order is kept, and each subscription's result does not depend on the others |
| Analysis.LinkedSnoc | src/analysis.rs:12-14 | one more subscription appends its own pair, if it has one |
| Analysis.LinkedSingle | src/analysis.rs:12-63 | a subscription and a single location it matches are linked |
| Analysis.LinkedSound | src/analysis.rs:12-63 | every pair holds an input subscription and an input location that matches it, and no earlier location matches it |
| Analysis.LinkedComplete | src/analysis.rs:12-63 | an input subscription is linked exactly when some location matches it |
| Analysis.LinkedNeedsFields | src/analysis.rs:18-40 | no linked subscription lacks an address with a space or a city-state-zip with a comma; no chosen location lacks a city or an address with a space |
| Analysis.LinkSubscription | src/analysis.rs:14-61 | the scan returns the pair of the first matching location, or none when no location matches |
| Analysis.Link | src/analysis.rs:8-64 | the loop computes exactly the linked pairs of the specification |
| RustTypes.HashMapFrom | src/emerald.rs:15-53 | the keys of the map are the keys of the entries |
| RustTypes.HashMapFromDistinct | src/emerald.rs:15-53 | with distinct keys, the map has one key per entry and each entry's key maps to its value |
| RustTypes.HashMapFromMapped | src/lib.rs:30-59 | entry lists related position by position give maps with the same keys and related values |
| Emerald.ProductCodes | src/emerald.rs:15-53 | defines `PRODUCT_CODES` as the map built in order from the 28 literal entries |
| Emerald.EntryKeysDistinct | src/emerald.rs:15-53 | no plan code is listed twice |
| Emerald.ProductCodesEntry | src/emerald.rs:15-53 | every key of the table comes from a listed entry, with that entry's classification |
| Emerald.ProductCodesKinds | src/emerald.rs:15-53 | a code is Internet, Voip, Fax or Admin exactly when it is in the corresponding code list |
| Emerald.ProductCodesSize | src/emerald.rs:15-53 | the table has 28 keys, exactly the codes of the four lists |
| Emerald.InternetCodesExactly | src/emerald.rs:16-38 | the Internet codes are exactly the 14 listed |
| Emerald.VoipCodesExactly | src/emerald.rs:39-42 | the Voip codes are exactly the four listed |
| Emerald.FaxCodesExactly | src/emerald.rs:43 | the only Fax code is fax2email |
| Emerald.AdminCodesExactly | src/emerald.rs:44-52 | the Admin codes are exactly the nine listed |
| Emerald.FaxIsOnlyFax2Email | src/emerald.rs:39-43 | voipfax is Voip, and a code is Fax exactly when it is fax2email |
| Emerald.InternetProfilesWellFormed | src/emerald.rs:16-38 | every Internet profile is symmetric and uses technology 10, 50 or 70 |
| Emerald.FttpProfiles | src/emerald.rs:16-24 | every fttp code is Internet with technology 50, and its name is fttp followed by its bandwidth |
| Emerald.FixedWirelessProfiles | src/emerald.rs:25-28 | every fw code is Internet with technology 70, and its name is fw followed by its bandwidth |
| Emerald.EnsProfiles | src/emerald.rs:29-37 | every ens code is Internet with technology 50; ens100mbps has 100, the others 1000 |
| Emerald.Gf100Profile | src/emerald.rs:38 | gf100 is Internet with technology 10 and bandwidth 100 |
| Emerald.UnknownCodeUnclassified | src/emerald.rs:15-53 | a code outside the 28 has no classification |
| Lib.ProductCodes | src/lib.rs:30-59 | defines the crate root's `PRODUCT_CODES` as the map built in order from its 28 literal entries |
| Lib.EntriesAgree | src/lib.rs:30-59 | the two literal lists have the same codes with the same classifications, in the same order |
| Lib.TablesAgree | src/lib.rs:30-59 | both tables have the same 28 keys and classify each key the same way |
| Lib.VoipAndFaxCodes | src/lib.rs:45-49 | the Voip codes are exactly voipfax, voippbxr, voiprpxr and voipbus; the Fax code is exactly fax2email |
| Lib.AdminCodes | src/lib.rs:50-58 | there are nine Admin codes, among them acp, ipstatic and ipv427 to ipv429 |
| Lib.InternetProfilesWellFormed | src/lib.rs:31-44 | every Internet profile is symmetric and uses technology 10, 50 or 70 |
| Fcc.Utf8 | src/fcc.rs:69-71 | one character per byte, each with its byte's value as code point |
| Fcc.Latin1Encode | src/fcc.rs:69-71 | a Latin-1 text encodes to the bytes it decodes from |
| Fcc.Latin1TextUnique | src/fcc.rs:69-71 | Latin-1 decoding is injective, and a text has one encoding |
| Fcc.EncodeUtf8 | src/fcc.rs:69-71 | decoding then encoding gives back the bytes |
| Fcc.Utf8Encode | src/fcc.rs:69-71 | encoding then decoding gives back a Latin-1 text |
| Fcc.AsciiUnchanged | src/fcc.rs:69-71 | bytes below 0x80 decode to the ASCII text with the same codes |
| Fcc.BslFlag | src/fcc.rs:56 | the flag is true exactly when the raw bytes are those of "TRUE" |
| Fcc.BslFlagOfText | src/fcc.rs:56 | for a field that holds a Latin-1 text, the flag is true exactly when the text is "TRUE" |
| Fcc.BslFlagIsExact | src/fcc.rs:56 | the bytes of "true", "True" and the empty field give false; the bytes of "TRUE" give true |
| Fcc.FromByteRecord | src/fcc.rs:46-67 | the text fields are the Latin-1 decodings of their bytes, both optional texts are present exactly when their raw fields are, the flag is exact "TRUE", and every other field is copied |
| Fcc.KeepDeserialized | src/fcc.rs:77-91 | the output is no longer than the input |
| Fcc.KeepDeserializedAppend | src/fcc.rs:77-91 | filtering distributes over concatenation: rows are kept in order, each row independently |
| Fcc.KeepDeserializedOne | src/fcc.rs:78-90 | a single row is converted when it deserialized and dropped otherwise |
| Fcc.KeepDeserializedSound | src/fcc.rs:77-91 | every output record is the conversion of a row that deserialized |
| Fcc.KeepDeserializedAll | src/fcc.rs:77-91 | nothing is dropped exactly when every row deserialized, and then record i is the conversion of row i |

## Left out

- Network pagination: `retrieve_subscriptions` and `retrieve_subscription_page` make blocking HTTP calls and sleep.
- Environment statics: `API_KEY` and `API_URL` read environment variables.
- Billing data carriers: only the fields `link` reads are modelled (`cf_service_address`, `cf_service_city_st_zip`), plus the plan id.
- Analysis.Matches: `fuzz::ratio` belongs to a foreign crate, so it is a parameter `ratio` of every linking member. Every property proved holds for any scoring function.
- Analysis.Upper: `to_uppercase` is full Unicode case mapping. The model upper-cases ASCII letters only, so non-ASCII case differences (for example 'é' against 'É', or 'ß' becoming "SS") are not modelled.
- Fcc.KeepDeserialized: opening and reading the CSV file and serde deserialization are I/O and library code. The model takes the sequence of per-row outcomes (unreadable, undeserializable, or the record) as its input. The error log line is left out.
- Fcc.FromByteRecord: `latitude` and `longitude` are `f64` values that are only copied. They are kept as opaque bit patterns.
- Logging: the `log::debug!` of a match and the `log::error!` of a bad row.
- src/reports.rs (tract and location aggregation, statistics, CSV output): it depends on types its file does not define (`Summation`, `TractSummationKey`, `LocationSummationKey`, `BroadbandStatistic`, `VoipStatistic`).
- src/routes/focus.rs: an upload handler with its own older record conversion (src/routes/focus.rs:57-78) that decodes only `address_primary` and keeps `city`, `state`, `location_id` and `bsl_flag` as deserialized strings and `county_geoid` as a `u64`; `upload_focus_data` discards the result of its `process_fcc_data` (src/routes/focus.rs:111). Not modelled.
- src/routes/reports.rs, src/bin/server.rs and static/index.js: file listing, server launch and browser UI, with no modellable logic.
- Emerald.Subscription: only `plan_id` is kept, and no modelled member reads it; the aggregators that use it are not part of this model.
- Ownership and cloning (`clone()` of records and subscriptions) have no counterpart: Dafny values are immutable.
