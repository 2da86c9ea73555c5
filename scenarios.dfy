/**
 * Worked inputs: the normalisation of mixed-case and padded addresses, and one
 * capture-to-notification run against a one-record table.
 */
module Scenarios {
  import opened Wrappers
  import opened Normalization
  import opened AddressBook
  import opened Notification

  /** Once "0x" is stripped and the ends trimmed, clean text is the key itself. */
  lemma KeyOfCleanTrim(s: string, u: string, t: string)
    requires Strip0x(s) == u
    requires Trim(u) == t
    requires forall k :: 0 <= k < |t| ==> !IsWhitespace(t[k]) && !IsUpper(t[k])
    ensures Normalize(s) == t
  {
    LowerSpec(t);
    assert Lower(t) == t;
    RemoveSpacesSpec(t);
  }

  lemma StripTreasury()
    ensures Strip0x("0xAbC123") == "AbC123"
  {
    assert "0xAbC123" == "" + "0x" + "AbC123";
    Strip0xSplit("", "AbC123");
    assert Strip0x("AbC123") == "AbC123";
  }

  lemma LowerTreasury()
    ensures Lower("AbC123") == "abc123"
  {
    LowerSpec("AbC123");
  }

  lemma TreasuryKeyIsClean()
    ensures forall k :: 0 <= k < |"abc123"| ==> !IsWhitespace("abc123"[k]) && !IsUpper("abc123"[k])
  {
  }

  /** The configured address "0xAbC123" is stored under "abc123". */
  lemma KeyTreasury()
    ensures Normalize("0xAbC123") == "abc123"
  {
    StripTreasury();
    KeyOfUnpaddedStrip("0xAbC123", "AbC123");
    LowerTreasury();
  }

  /** The padding and the digits around the "0x" of the padded capture below. */
  const QueryPad: string := "  "
  const QueryDigits: string := "abc123 "

  lemma StripPaddedQueryParts()
    ensures Strip0x(QueryPad) == QueryPad && Strip0x(QueryDigits) == QueryDigits
  {
    assert QueryPad[1..] == " ";
  }

  lemma StripPaddedQuery()
    ensures Strip0x(PaddedQuery) == QueryPad + QueryDigits
  {
    StripPaddedQueryParts();
    Strip0xSplit(QueryPad, QueryDigits);
  }

  lemma TrimPaddedQuery()
    ensures Trim(QueryPad + QueryDigits) == "abc123"
  {
    var s := "  abc123 ";
    assert QueryPad + QueryDigits == s;
    assert s[1..] == " abc123 ";
    assert s[1..][1..] == "abc123 ";
    assert TrimStart(s) == "abc123 ";
    assert "abc123 "[..6] == "abc123";
    assert TrimEnd("abc123 ") == "abc123";
  }

  /** A capture of the configured address, lowercase and padded with spaces: "  0xabc123 ". */
  const PaddedQuery: string := QueryPad + "0x" + QueryDigits

  /** A capture of an address that is not configured. */
  const OtherQuery: string := "0xDEF999"

  /** A padded lowercase capture of the same address has the same key. */
  lemma KeyPaddedQuery()
    ensures Normalize(PaddedQuery) == "abc123"
  {
    StripPaddedQuery();
    TrimPaddedQuery();
    TreasuryKeyIsClean();
    KeyOfCleanTrim(PaddedQuery, QueryPad + QueryDigits, "abc123");
  }

  lemma StripOtherQuery()
    ensures Strip0x("0xDEF999") == "DEF999"
  {
    assert "0xDEF999" == "" + "0x" + "DEF999";
    Strip0xSplit("", "DEF999");
    assert Strip0x("DEF999") == "DEF999";
  }

  lemma KeyOtherQuery()
    ensures Normalize(OtherQuery) != "abc123"
  {
    StripOtherQuery();
    KeyOfUnpaddedStrip(OtherQuery, "DEF999");
    LowerSpec("DEF999");
    assert Normalize(OtherQuery)[0] == 'd';
  }

  const Treasury: MemoAddress := MemoAddress("0xAbC123", "Treasury", "ETH", "Main fund")

  lemma TreasuryTable()
    ensures Dict([Treasury]) == map["abc123" := Treasury]
  {
    KeyTreasury();
    assert [Treasury][..0] == [];
  }

  lemma TreasuryMessage()
    ensures Message(Treasury) == "Treasury in ETH\nMain fund"
  {
  }

  lemma LookupPaddedQuery()
    ensures GetAddressLabel(PaddedQuery, Dict([Treasury])) == Ok(Message(Treasury))
  {
    TreasuryTable();
    KeyPaddedQuery();
  }

  lemma LookupOtherQuery()
    ensures GetAddressLabel(OtherQuery, Dict([Treasury])) == Err(NotFound)
  {
    TreasuryTable();
    KeyOtherQuery();
  }

  /**
   * One record {"0xAbC123", "Treasury", "ETH", "Main fund"}: capturing
   * "  0xabc123 " shows "Treasury in ETH\nMain fund" under the untouched
   * short title; capturing "0xDEF999" shows the not-found body.
   */
  lemma EndToEnd()
    ensures Present(Ok(PaddedQuery), Dict([Treasury]))
            == Some(Note(PaddedQuery, "Treasury in ETH\nMain fund"))
    ensures Present(Ok(OtherQuery), Dict([Treasury]))
            == Some(Note(OtherQuery, AddressNotFound))
  {
    LookupPaddedQuery();
    LookupOtherQuery();
    TreasuryMessage();
  }

  lemma StripMixedPrefixes()
    ensures Strip0x("0X 0x Ab C") == "0X  Ab C"
  {
    assert "0X 0x Ab C" == "0X " + "0x" + " Ab C";
    Strip0xSplit("0X ", " Ab C");
    assert Strip0x("0X ") == "0X " by {
      assert "0X "[1..] == "X ";
      assert "X "[1..] == " ";
    }
    assert Strip0x(" Ab C") == " Ab C";
  }

  lemma TrimMixedPrefixes()
    ensures Trim("0X  Ab C") == "0X  Ab C"
  {
  }

  lemma LowerMixedPrefixes()
    ensures Lower("0X  Ab C") == "0x  ab c"
  {
    LowerSpec("0X  Ab C");
  }

  lemma RemoveSpacesMixedPrefixes()
    ensures RemoveSpaces("0x  ab c") == "0xabc"
  {
    var s := "0x  ab c";
    assert s[1..] == "x  ab c";
    assert s[1..][1..] == "  ab c";
    assert s[1..][1..][1..] == " ab c";
    assert s[1..][1..][1..][1..] == "ab c";
    assert "ab c"[1..] == "b c";
    assert "b c"[1..] == " c";
    assert " c"[1..] == "c";
    assert "c"[1..] == "";
  }

  /**
   * Only the lowercase "0x" is stripped, and before lowercasing: the key of
   * "0X 0x Ab C" keeps the leading "0x" that lowercasing made.
   */
  lemma MixedPrefixesKeepUppercaseOne()
    ensures Normalize("0X 0x Ab C") == "0xabc"
  {
    StripMixedPrefixes();
    TrimMixedPrefixes();
    LowerMixedPrefixes();
    RemoveSpacesMixedPrefixes();
  }
}
