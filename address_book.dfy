/**
 * The address table: `MemoAddress` records keyed by their normalised address
 * (`init_address_dict`), the lookup of a captured text (`get_address_label`)
 * and the message shown on a hit (`get_msg_from_memo`).
 */
module AddressBook {
  import opened Wrappers
  import opened Normalization

  /** One configured entry of the address file (`labelText` is the source's `label`, a Dafny keyword). */
  datatype MemoAddress = MemoAddress(address: string, labelText: string, chain: string, description: string)

  type Table = map<string, MemoAddress>

  /** The key a record is stored under. */
  function Key(m: MemoAddress): string {
    Normalize(m.address)
  }

  /** The keys of a record list, one per record. */
  function KeysOf(records: seq<MemoAddress>): set<string> {
    set m | m in records :: Key(m)
  }

  /**
   * The table `init_address_dict` builds: records inserted in list order, so a
   * later record with the same key overwrites an earlier one.
   */
  function Dict(records: seq<MemoAddress>): (t: Table)
    ensures forall k :: k in t ==> Key(t[k]) == k && t[k] in records
  {
    if records == [] then map[]
    else
      var last := records[|records| - 1];
      Dict(records[..|records| - 1])[Key(last) := last]
  }

  /**
   * Index of the last record stored under `k`, or -1 when none is.
   */
  function LastIndexOf(records: seq<MemoAddress>, k: string): (i: int)
    ensures -1 <= i < |records|
    ensures 0 <= i ==> Key(records[i]) == k
    ensures forall j :: i < j < |records| ==> Key(records[j]) != k
  {
    if records == [] then -1
    else if Key(records[|records| - 1]) == k then |records| - 1
    else LastIndexOf(records[..|records| - 1], k)
  }

  /** The table has exactly one key per distinct normalised address. */
  lemma {:induction false} DictKeys(records: seq<MemoAddress>)
    ensures Dict(records).Keys == KeysOf(records)
  {
    if records != [] {
      var init := records[..|records| - 1];
      var last := records[|records| - 1];
      DictKeys(init);
      assert KeysOf(records) == KeysOf(init) + {Key(last)} by {
        assert records == init + [last];
        forall x | x in KeysOf(records) ensures x in KeysOf(init) + {Key(last)} {
          var m :| m in records && Key(m) == x;
          if m != last {
            assert m in init;
          }
        }
      }
    }
  }

  /** So the table never has more entries than the list has records. */
  lemma {:induction false} DictSize(records: seq<MemoAddress>)
    ensures |Dict(records)| <= |records|
  {
    if records != [] {
      var init := records[..|records| - 1];
      var last := records[|records| - 1];
      DictSize(init);
      var d := Dict(init);
      assert Dict(records).Keys == d.Keys + {Key(last)};
      assert |d.Keys + {Key(last)}| <= |d.Keys| + 1;
      assert |Dict(records)| == |Dict(records).Keys|;
      assert |d| == |d.Keys|;
    }
  }

  /** Each key holds the last record in the list stored under it. */
  lemma {:induction false} DictHoldsLastWrite(records: seq<MemoAddress>, k: string)
    ensures k in Dict(records) <==> 0 <= LastIndexOf(records, k)
    ensures k in Dict(records) ==> Dict(records)[k] == records[LastIndexOf(records, k)]
  {
    if records != [] {
      DictHoldsLastWrite(records[..|records| - 1], k);
    }
  }

  /**
   * Last write wins: when records i < j share a key, the table holds at that
   * key a record from position j onwards, never one before j.
   */
  lemma LastWins(records: seq<MemoAddress>, i: nat, j: nat)
    requires i < j < |records|
    requires Key(records[i]) == Key(records[j])
    ensures Key(records[j]) in Dict(records)
    ensures exists m :: j <= m < |records| && Dict(records)[Key(records[j])] == records[m]
  {
    var k := Key(records[j]);
    DictHoldsLastWrite(records, k);
    var m := LastIndexOf(records, k);
    assert j <= m;
  }

  /** `get_msg_from_memo`: "<label> in <chain>\n<description>". */
  function Message(m: MemoAddress): (r: string)
    ensures |r| == |m.labelText| + |m.chain| + |m.description| + 5
    ensures r[..|m.labelText|] == m.labelText
    ensures r[|m.labelText|..|m.labelText| + 4] == " in "
    ensures r[|m.labelText| + 4..|m.labelText| + 4 + |m.chain|] == m.chain
    ensures r[|r| - |m.description|..] == m.description
    ensures r[|m.labelText| + |m.chain| + 4] == '\n'
  {
    m.labelText + " in " + m.chain + "\n" + m.description
  }

  const NotFound: string := "Not Found"

  /** `get_address_label`: normalise the query, then look it up. */
  function GetAddressLabel(address: string, dict: Table): (r: Result<string>)
    ensures r.Ok? <==> Normalize(address) in dict
    ensures r.Ok? ==> r.value == Message(dict[Normalize(address)])
    ensures r.Err? ==> r.error == NotFound
  {
    var key := Normalize(address);
    if key in dict then Ok(Message(dict[key])) else Err(NotFound)
  }

  /**
   * A lookup against a built table, stated in terms of the record list alone:
   * the message of the last record whose key equals the query's key, or
   * `Err("Not Found")` when no record's key does.
   */
  lemma LookupInBuiltTable(records: seq<MemoAddress>, query: string)
    ensures var i := LastIndexOf(records, Normalize(query));
            GetAddressLabel(query, Dict(records))
            == if 0 <= i then Ok(Message(records[i])) else Err(NotFound)
  {
    DictHoldsLastWrite(records, Normalize(query));
  }

  /**
   * Build and lookup share one normalisation: a record looked up by its own
   * address yields its own message unless a later record takes its key.
   */
  lemma LookupOwnAddress(records: seq<MemoAddress>, i: nat)
    requires i < |records|
    requires forall j :: i < j < |records| ==> Key(records[j]) != Key(records[i])
    ensures GetAddressLabel(records[i].address, Dict(records)) == Ok(Message(records[i]))
  {
    LookupInBuiltTable(records, records[i].address);
    assert LastIndexOf(records, Key(records[i])) == i;
  }

  /** A query whose key no record has is a miss. */
  lemma LookupMiss(records: seq<MemoAddress>, query: string)
    requires forall m :: m in records ==> Key(m) != Normalize(query)
    ensures GetAddressLabel(query, Dict(records)) == Err(NotFound)
  {
    DictKeys(records);
  }

  /** `init_address_dict`'s loop: insert every record in list order. */
  method Build(records: seq<MemoAddress>) returns (dict: Table)
    ensures dict == Dict(records)
    ensures dict.Keys == KeysOf(records)
    ensures |dict| <= |records|
  {
    dict := map[];
    var i := 0;
    while i < |records|
      invariant 0 <= i <= |records|
      invariant dict == Dict(records[..i])
    {
      var memo := records[i];
      assert records[..i + 1][..i] == records[..i];
      dict := dict[Key(memo) := memo];
      i := i + 1;
    }
    assert records[..|records|] == records;
    DictKeys(records);
    DictSize(records);
  }
}
