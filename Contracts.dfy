/** The static contract -> vehicles table, its inversion into vehicle -> contract,
    and the lookup that labels every trip with a contract. */
module Contracts {
  import opened Cells

  /** One entry of the contract -> vehicles dictionary, in its iteration order. */
  datatype ContractEntry = ContractEntry(contract: string, vehicles: seq<string>)

  const NO_CONTRACT := "No Contract"

  /** Some entry of the table lists vehicle `v`. */
  ghost predicate Listed(table: seq<ContractEntry>, v: string)
  {
    exists i :: 0 <= i < |table| && v in table[i].vehicles
  }

  /** The vehicles of one entry, each mapped to the entry's contract. */
  function EntryMap(entry: ContractEntry): map<string, string>
  {
    map v | v in entry.vehicles :: entry.contract
  }

  /** The dictionary comprehension that inverts the table: every vehicle is
      assigned the contract it is listed under, later entries overwriting
      earlier ones. */
  function Invert(table: seq<ContractEntry>): map<string, string>
    decreases |table|
  {
    if table == [] then map[]
    else
      var n := |table| - 1;
      Invert(table[..n]) + EntryMap(table[n])
  }

  /** Exactly the listed vehicles are keys of the inverted table. */
  lemma {:induction false} InvertDomain(table: seq<ContractEntry>, v: string)
    ensures v in Invert(table) <==> Listed(table, v)
    decreases |table|
  {
    if table != [] {
      var n := |table| - 1;
      var prefix := table[..n];
      InvertDomain(prefix, v);
      assert v in Invert(table) <==> v in Invert(prefix) || v in table[n].vehicles by {
        assert v in EntryMap(table[n]) <==> v in table[n].vehicles;
      }
      if Listed(table, v) && v !in table[n].vehicles {
        var i :| 0 <= i < |table| && v in table[i].vehicles;
        assert prefix[i] == table[i];
      }
      if Listed(prefix, v) {
        var i :| 0 <= i < n && v in prefix[i].vehicles;
        assert prefix[i] == table[i];
      }
    }
  }

  /** Entry `i` is the last one that lists vehicle `v`. */
  ghost predicate LastListing(table: seq<ContractEntry>, v: string, i: int)
  {
    && 0 <= i < |table| && v in table[i].vehicles
    && forall j :: i < j < |table| ==> v !in table[j].vehicles
  }

  /** A vehicle the last entry lists takes that entry's contract. */
  lemma InvertLatest(table: seq<ContractEntry>, v: string)
    requires table != [] && v in table[|table| - 1].vehicles
    ensures v in Invert(table) && Invert(table)[v] == table[|table| - 1].contract
  {
    var n := |table| - 1;
    assert v in EntryMap(table[n]);
  }

  /** A vehicle the last entry does not list keeps what the earlier entries gave it. */
  lemma InvertEarlier(table: seq<ContractEntry>, v: string)
    requires table != [] && v !in table[|table| - 1].vehicles && v in Invert(table[..|table| - 1])
    ensures v in Invert(table) && Invert(table)[v] == Invert(table[..|table| - 1])[v]
  {
    var n := |table| - 1;
    assert v !in EntryMap(table[n]);
  }

  /** A vehicle listed more than once takes the contract of the last entry that lists it. */
  lemma {:induction false} InvertLastWins(table: seq<ContractEntry>, v: string, i: int)
    requires LastListing(table, v, i)
    ensures v in Invert(table) && Invert(table)[v] == table[i].contract
    decreases |table|
  {
    var n := |table| - 1;
    if i < n {
      var prefix := table[..n];
      assert LastListing(prefix, v, i) by {
        assert prefix[i] == table[i];
        forall j | i < j < n ensures v !in prefix[j].vehicles {
          assert prefix[j] == table[j];
        }
      }
      InvertLastWins(prefix, v, i);
      InvertEarlier(table, v);
    } else {
      InvertLatest(table, v);
    }
  }

  /** A listed vehicle has a last entry that lists it. */
  lemma {:induction false} LastListingExists(table: seq<ContractEntry>, v: string)
    requires Listed(table, v)
    ensures exists i :: LastListing(table, v, i)
    decreases |table|
  {
    var n := |table| - 1;
    if v !in table[n].vehicles {
      var prefix := table[..n];
      assert Listed(prefix, v) by {
        var i :| 0 <= i < |table| && v in table[i].vehicles;
        assert prefix[i] == table[i];
      }
      LastListingExists(prefix, v);
      var i :| LastListing(prefix, v, i);
      assert prefix[i] == table[i];
      assert forall j :: i < j < n ==> prefix[j] == table[j];
      assert LastListing(table, v, i);
    } else {
      assert LastListing(table, v, n);
    }
  }

  /** Every vehicle of the inverted table maps to a contract whose list holds it. */
  lemma InvertedContractListsVehicle(table: seq<ContractEntry>, v: string)
    requires v in Invert(table)
    ensures exists i :: 0 <= i < |table| && v in table[i].vehicles && Invert(table)[v] == table[i].contract
  {
    InvertDomain(table, v);
    LastListingExists(table, v);
    var i :| LastListing(table, v, i);
    InvertLastWins(table, v, i);
  }

  /** get_contract: an exact, case-sensitive key lookup with a default. */
  function GetContract(mapping: map<string, string>, vehicle: Cell): string
  {
    if vehicle.Text? && vehicle.s in mapping then mapping[vehicle.s] else NO_CONTRACT
  }

  /** A listed vehicle is labelled with the last contract that lists it. */
  lemma ContractOfListedVehicle(table: seq<ContractEntry>, v: string, i: int)
    requires LastListing(table, v, i)
    ensures GetContract(Invert(table), Text(v)) == table[i].contract
  {
    InvertLastWins(table, v, i);
  }

  /** A vehicle no entry lists, and a missing vehicle cell, get "No Contract". */
  lemma ContractOfUnlistedVehicle(table: seq<ContractEntry>, vehicle: Cell)
    requires vehicle.Text? ==> !Listed(table, vehicle.s)
    ensures GetContract(Invert(table), vehicle) == NO_CONTRACT
  {
    if vehicle.Text? {
      InvertDomain(table, vehicle.s);
    }
  }

  /** The table the program embeds. */
  const CONTRACT_VEHICLES: seq<ContractEntry> := [
    ContractEntry("449-2018B", ["1201A BUS", "1202A BUS", "1203A BUS", "1204A BUS", "1205A BUS", "1206A BUS"]),
    ContractEntry("1022-2018", ["721A CAR", "722A CAR", "723A CAR", "724A CAR", "725A CAR", "726A CAR", "TAOS1AB SUV"]),
    ContractEntry("1260-2018", ["781A CAR", "782A CAR", "783A CAR", "784A CAR", "785A CAR", "786A CAR", "TAOS2AB SUV"]),
    ContractEntry("871-2022", ["C7AB SUV", "C8AB SUV", "C9AB SUV", "C10AB SUV", "C11AB SUV", "C12AB SUV"]),
    ContractEntry("754-2022", ["C1CA SUV", "C2CA SUV", "C3CA SUV", "C4CA SUV", "C5CA SUV", "C6CA SUV", "EXPL1CA"]),
    ContractEntry("106-2019", ["801E BUS", "802E BUS", "803E BUS", "804E BUS", "805E BUS", "806E BUS"]),
    ContractEntry("8-2017", ["1751E VAN", "1752E VAN", "1753E VAN", "1754E VAN", "1755E VAN", "1756E VAN"]),
    ContractEntry("657-2017", ["657-01J CAR", "675-02J CAR", "675-03J CAR", "675-04J CAR", "675-05J CAR", "675-07J CAR"]),
    ContractEntry("108-2019", ["201M CAR", "202M CAR", "203M CAR", "204M CAR", "205M CAR", "206M CAR", "207M CAR"]),
    ContractEntry("449-2018A", ["1501U BUS", "1502U BUS", "1503U BUS", "1504U BUS", "1505U BUS", "1506U BUS"]),
    ContractEntry("1259-2018", ["601U BUS", "602U BUS", "603U BUS", "604U BUS", "605U BUS", "606U BUS"]),
    ContractEntry("107-2019", ["701U BUS", "702U BUS", "703U BUS", "704U BUS", "705U BUS", "706U BUS"])
  ]

  /** vehicle_contract_mapping as the program builds it at start-up. */
  const VEHICLE_CONTRACT_MAPPING: map<string, string> := Invert(CONTRACT_VEHICLES)

  /** A vehicle of the embedded table finds the contract it is listed under. */
  lemma EmbeddedTableLookup()
    ensures GetContract(VEHICLE_CONTRACT_MAPPING, Text("701U BUS")) == "107-2019"
  {
    ContractOfListedVehicle(CONTRACT_VEHICLES, "701U BUS", 11);
  }
}
