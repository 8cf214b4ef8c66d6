/** The two address helpers: `get_addresses_from_row`, which builds the address list
    of a supplier, and `WorksheetImporter.fill_addressfields`, which builds the four
    address maps an entity may accept. */
module Addresses {
  import opened Wrappers
  import Text
  import opened Worksheet

  // ---------------------------------------------------------------- get_addresses_from_row

  /** `PHYSICAL_ADDRESS`, `POSTAL_ADDRESS` and `BILLING_ADDRESS`, in the order tried. They
      are imported from `senaite.core.schema.addressfield`, which is not part of this model;
      their values are taken to be the lower-case type names. */
  const ListTypes: seq<string> := ["physical", "postal", "billing"]

  /** The value of one part of an address type, read from e.g. the `Physical_City` column. */
  function PartValue(row: Record, addressType: string, suffix: string): string
  {
    GetField(row, Text.Capitalize(addressType) + "_" + suffix)
  }

  function PutIfSet(m: map<string, string>, key: string, v: string): map<string, string>
  {
    if v != "" then m[key := v] else m
  }

  /** `key` is in `item` exactly when the part's value is non-empty, and then holds it. */
  predicate HoldsPart(item: map<string, string>, row: Record, addressType: string, suffix: string, key: string)
  {
    var v := PartValue(row, addressType, suffix);
    (key in item <==> v != "") && (key in item ==> item[key] == v)
  }

  /** The item built for one address type, before the "at least one part" test: its
      type and exactly the non-empty ones among `Address`, `City`, `Zip`, `Country`. */
  function AddressItem(row: Record, addressType: string): (item: map<string, string>)
    ensures "type" in item && item["type"] == addressType
    ensures item.Keys <= {"type", "address", "city", "zip", "country"}
    ensures HoldsPart(item, row, addressType, "Address", "address")
    ensures HoldsPart(item, row, addressType, "City", "city")
    ensures HoldsPart(item, row, addressType, "Zip", "zip")
    ensures HoldsPart(item, row, addressType, "Country", "country")
  {
    var item := map["type" := addressType];
    var item := PutIfSet(item, "address", PartValue(row, addressType, "Address"));
    var item := PutIfSet(item, "city", PartValue(row, addressType, "City"));
    var item := PutIfSet(item, "zip", PartValue(row, addressType, "Zip"));
    PutIfSet(item, "country", PartValue(row, addressType, "Country"))
  }

  /** True when some part of the address type has a non-empty column. */
  predicate HasAnyPart(row: Record, addressType: string)
  {
    || PartValue(row, addressType, "Address") != ""
    || PartValue(row, addressType, "City") != ""
    || PartValue(row, addressType, "Zip") != ""
    || PartValue(row, addressType, "Country") != ""
  }

  /** The "more keys than just `type`" test of the source is the same as "some part is set". */
  lemma KeptIffSomePart(row: Record, addressType: string)
    ensures |AddressItem(row, addressType).Keys| > 1 <==> HasAnyPart(row, addressType)
  {
    var item := AddressItem(row, addressType);
    if HasAnyPart(row, addressType) {
      var k :| k in item.Keys && k != "type";
      assert {"type", k} <= item.Keys;
      assert |{"type", k}| == 2;
      SubsetCard({"type", k}, item.Keys);
    } else {
      assert item.Keys == {"type"};
    }
  }

  lemma SubsetCard(a: set<string>, b: set<string>)
    requires a <= b
    ensures |a| <= |b|
  {
    assert b == a + (b - a);
  }

  /** The items that have more keys than just `type`, in order. */
  function KeepFilled(items: seq<map<string, string>>): seq<map<string, string>>
    decreases |items|
  {
    if items == [] then []
    else (if |items[0].Keys| > 1 then [items[0]] else []) + KeepFilled(items[1..])
  }

  /** The candidate item of each address type, in order. */
  function ItemsFor(row: Record, types: seq<string>): seq<map<string, string>>
  {
    seq(|types|, i requires 0 <= i < |types| => AddressItem(row, types[i]))
  }

  /** `get_addresses_from_row(row)`. */
  function AddressesFromRow(row: Record): seq<map<string, string>>
  {
    KeepFilled(ItemsFor(row, ListTypes))
  }

  /** Filtering a concatenation filters each part. */
  lemma {:induction false} KeepFilledConcat(a: seq<map<string, string>>, b: seq<map<string, string>>)
    ensures KeepFilled(a + b) == KeepFilled(a) + KeepFilled(b)
    decreases |a|
  {
    if a != [] {
      KeepFilledConcat(a[1..], b);
      assert (a + b)[0] == a[0] && (a + b)[1..] == a[1..] + b;
    } else {
      assert a + b == b;
    }
  }

  /** One item is kept exactly when it has a key besides `type`. */
  lemma KeepFilledOne(x: map<string, string>)
    ensures KeepFilled([x]) == if |x.Keys| > 1 then [x] else []
  {
    assert [x][1..] == [];
  }

  lemma {:induction false} KeepFilledMembers(items: seq<map<string, string>>)
    ensures |KeepFilled(items)| <= |items|
    ensures forall x :: x in KeepFilled(items) <==> x in items && |x.Keys| > 1
    decreases |items|
  {
    if items != [] {
      KeepFilledMembers(items[1..]);
      var head := if |items[0].Keys| > 1 then [items[0]] else [];
      forall x ensures x in items <==> x == items[0] || x in items[1..] {
        assert items == [items[0]] + items[1..];
      }
      assert forall x :: x in head + KeepFilled(items[1..]) <==> x in head || x in KeepFilled(items[1..]);
    }
  }

  lemma KeepFilledSplitAt(items: seq<map<string, string>>, j: nat)
    requires j <= |items|
    ensures KeepFilled(items) == KeepFilled(items[..j]) + KeepFilled(items[j..])
  {
    var a, b := items[..j], items[j..];
    calc {
      KeepFilled(items);
      { assert items == a + b; }
      KeepFilled(a + b);
      { KeepFilledConcat(a, b); }
      KeepFilled(a) + KeepFilled(b);
    }
  }

  lemma KeepFilledSplits(items: seq<map<string, string>>)
    ensures forall j :: 0 <= j <= |items| ==>
              KeepFilled(items) == KeepFilled(items[..j]) + KeepFilled(items[j..])
  {
    forall j | 0 <= j <= |items|
      ensures KeepFilled(items) == KeepFilled(items[..j]) + KeepFilled(items[j..])
    {
      KeepFilledSplitAt(items, j);
    }
  }

  /** The filter keeps exactly the items with a key besides `type`, each as often as it
      occurs and in the order given: it splits at any point, one item is kept or dropped
      on its own, and no more items come out than went in. */
  lemma KeepFilledSpec(items: seq<map<string, string>>)
    ensures |KeepFilled(items)| <= |items|
    ensures forall x :: x in KeepFilled(items) <==> x in items && |x.Keys| > 1
    ensures forall j :: 0 <= j <= |items| ==>
              KeepFilled(items) == KeepFilled(items[..j]) + KeepFilled(items[j..])
    ensures forall j :: 0 <= j < |items| ==>
              KeepFilled(items[j..j + 1]) == if |items[j].Keys| > 1 then [items[j]] else []
  {
    KeepFilledMembers(items);
    KeepFilledSplits(items);
    forall j | 0 <= j < |items|
      ensures KeepFilled(items[j..j + 1]) == if |items[j].Keys| > 1 then [items[j]] else []
    {
      KeepFilledAt(items, j);
    }
  }

  lemma KeepFilledAt(items: seq<map<string, string>>, j: nat)
    requires j < |items|
    ensures KeepFilled(items[j..j + 1]) == if |items[j].Keys| > 1 then [items[j]] else []
  {
    calc {
      KeepFilled(items[j..j + 1]);
      { assert items[j..j + 1] == [items[j]]; }
      KeepFilled([items[j]]);
      { KeepFilledOne(items[j]); }
      if |items[j].Keys| > 1 then [items[j]] else [];
    }
  }

  /** For any list of address types, every item kept is the item of one of the types,
      and that type has at least one non-empty part. */
  lemma AddressesForItems(row: Record, types: seq<string>)
    ensures |KeepFilled(ItemsFor(row, types))| <= |types|
    ensures forall item :: item in KeepFilled(ItemsFor(row, types)) ==>
              "type" in item && item["type"] in types && HasAnyPart(row, item["type"])
              && item == AddressItem(row, item["type"])
  {
    var items := ItemsFor(row, types);
    KeepFilledSpec(items);
    forall item | item in KeepFilled(items)
      ensures "type" in item && item["type"] in types && HasAnyPart(row, item["type"])
              && item == AddressItem(row, item["type"])
    {
      var i :| 0 <= i < |types| && items[i] == item;
      KeptIffSomePart(row, types[i]);
    }
  }

  /** For any list of address types, the item of every type that has a non-empty part
      is kept. */
  lemma AddressesForCovers(row: Record, types: seq<string>)
    ensures forall t :: t in types && HasAnyPart(row, t) ==> AddressItem(row, t) in KeepFilled(ItemsFor(row, types))
  {
    var items := ItemsFor(row, types);
    KeepFilledSpec(items);
    forall t | t in types && HasAnyPart(row, t) ensures AddressItem(row, t) in KeepFilled(items) {
      var i :| 0 <= i < |types| && types[i] == t;
      assert items[i] == AddressItem(row, t);
      KeptIffSomePart(row, t);
    }
  }

  /** The item of one address type when it has a part, else nothing. */
  function KeptItem(row: Record, addressType: string): seq<map<string, string>>
  {
    if HasAnyPart(row, addressType) then [AddressItem(row, addressType)] else []
  }

  /** `get_addresses_from_row` yields at most the three address types, and exactly the
      items of those that have at least one non-empty part: one item per such type, in
      the order physical, postal, billing. */
  lemma AddressesFromRowSpec(row: Record)
    ensures |AddressesFromRow(row)| <= 3
    ensures forall item :: item in AddressesFromRow(row) ==>
              "type" in item && item["type"] in ListTypes && HasAnyPart(row, item["type"])
              && item == AddressItem(row, item["type"])
    ensures forall t :: t in ListTypes && HasAnyPart(row, t) ==> AddressItem(row, t) in AddressesFromRow(row)
    ensures AddressesFromRow(row)
         == KeptItem(row, "physical") + KeptItem(row, "postal") + KeptItem(row, "billing")
  {
    AddressesForItems(row, ListTypes);
    AddressesForCovers(row, ListTypes);
    AddressesInTypeOrder(row);
  }

  lemma AddressesInTypeOrder(row: Record)
    ensures AddressesFromRow(row)
         == KeptItem(row, "physical") + KeptItem(row, "postal") + KeptItem(row, "billing")
  {
    var p, q, b := AddressItem(row, "physical"), AddressItem(row, "postal"), AddressItem(row, "billing");
    calc {
      AddressesFromRow(row);
      { assert ItemsFor(row, ListTypes) == [p] + ([q] + [b]); }
      KeepFilled([p] + ([q] + [b]));
      { KeepFilledConcat([p], [q] + [b]); KeepFilledConcat([q], [b]); }
      KeepFilled([p]) + (KeepFilled([q]) + KeepFilled([b]));
      { KeptOne(row, "physical"); KeptOne(row, "postal"); KeptOne(row, "billing"); }
      KeptItem(row, "physical") + (KeptItem(row, "postal") + KeptItem(row, "billing"));
    }
  }

  lemma KeptOne(row: Record, addressType: string)
    ensures KeepFilled([AddressItem(row, addressType)]) == KeptItem(row, addressType)
  {
    KeepFilledOne(AddressItem(row, addressType));
    KeptIffSomePart(row, addressType);
  }

  // ---------------------------------------------------------------- fill_addressfields

  /** The address setters an entity may offer (`setPhysicalAddress`, ...). */
  datatype AddressField = PhysicalAddress | PostalAddress | CountryState | BillingAddress

  /** The six map keys of `fill_addressfields`: the lower case of the column suffixes. */
  const FillKeys: set<string> := {"address", "city", "state", "district", "zip", "country"}

  /** The map for one prefix: every part, `''` when its column is absent. */
  function AddressBlock(row: Record, prefix: string): (block: AddressMap)
    ensures block.Keys == FillKeys
    ensures block["address"] == GetField(row, prefix + "_Address")
    ensures block["city"] == GetField(row, prefix + "_City")
    ensures block["state"] == GetField(row, prefix + "_State")
    ensures block["district"] == GetField(row, prefix + "_District")
    ensures block["zip"] == GetField(row, prefix + "_Zip")
    ensures block["country"] == GetField(row, prefix + "_Country")
  {
    var block := map["address" := GetField(row, prefix + "_Address"),
                     "city" := GetField(row, prefix + "_City"),
                     "state" := GetField(row, prefix + "_State"),
                     "district" := GetField(row, prefix + "_District"),
                     "zip" := GetField(row, prefix + "_Zip"),
                     "country" := GetField(row, prefix + "_Country")];
    block
  }

  /** The `CountryState` map, which takes the physical country and state when its own
      country and state are both empty. */
  function CountryStateBlock(row: Record): (cs: AddressMap)
    ensures cs.Keys == FillKeys
    ensures var own := AddressBlock(row, "CountryState");
      && (forall k :: k in FillKeys && k != "country" && k != "state" ==> cs[k] == own[k])
      && (own["country"] != "" || own["state"] != "" ==> cs == own)
      && (own["country"] == "" && own["state"] == "" ==>
            cs["country"] == AddressBlock(row, "Physical")["country"]
            && cs["state"] == AddressBlock(row, "Physical")["state"])
  {
    var own := AddressBlock(row, "CountryState");
    var physical := AddressBlock(row, "Physical");
    if own["country"] == "" && own["state"] == "" then
      own["country" := physical["country"]]["state" := physical["state"]]
    else own
  }

  /** The map `fill_addressfields` builds for the setter `f`. */
  function BlockFor(row: Record, f: AddressField): (block: AddressMap)
    ensures block.Keys == FillKeys
    ensures f == PhysicalAddress ==> block == AddressBlock(row, "Physical")
    ensures f == PostalAddress ==> block == AddressBlock(row, "Postal")
    ensures f == BillingAddress ==> block == AddressBlock(row, "Billing")
    ensures f == CountryState ==> block == CountryStateBlock(row)
  {
    match f
    case PhysicalAddress => AddressBlock(row, "Physical")
    case PostalAddress => AddressBlock(row, "Postal")
    case CountryState => CountryStateBlock(row)
    case BillingAddress => AddressBlock(row, "Billing")
  }

  /** `fill_addressfields(row, obj)`: the value passed to each setter the entity offers;
      every value has the six parts, and each setter gets the map of its own prefix. */
  function FillAddressFields(row: Record, setters: set<AddressField>): (r: map<AddressField, AddressMap>)
    ensures r.Keys == setters
    ensures forall f :: f in r ==> r[f].Keys == FillKeys
    ensures PhysicalAddress in setters ==> r[PhysicalAddress] == AddressBlock(row, "Physical")
    ensures PostalAddress in setters ==> r[PostalAddress] == AddressBlock(row, "Postal")
    ensures BillingAddress in setters ==> r[BillingAddress] == AddressBlock(row, "Billing")
    ensures CountryState in setters ==> r[CountryState] == CountryStateBlock(row)
  {
    map f | f in setters :: BlockFor(row, f)
  }
}
