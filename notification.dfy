/**
 * What a fired hotkey shows: the notification title derived from the captured
 * text, and the body derived from the lookup (the `Ok(text)` arm of the
 * `listen` callback).
 */
module Notification {
  import opened Wrappers
  import opened Normalization
  import opened AddressBook

  /** A notification's summary line and body. */
  datatype Note = Note(summary: string, body: string)

  /** Body shown when the lookup misses. */
  const AddressNotFound: string := "Address Not Found"

  /**
   * The title: a text of 18 characters or more is shortened to its first 10
   * characters, "..." and its last 8 characters; a shorter one is shown whole.
   */
  function ShowText(text: string): (r: string)
    ensures |text| < 18 ==> r == text
    ensures |text| >= 18 ==> |r| == 21 && r[..10] == text[..10] && r[10..13] == "..." && r[13..] == text[|text| - 8..]
  {
    if |text| >= 18 then text[..10] + "..." + text[|text| - 8..] else text
  }

  /** The body: the lookup's message, or the fixed not-found text. */
  function Body(lookup: Result<string>): (r: string)
    ensures lookup.Ok? ==> r == lookup.value
    ensures lookup.Err? ==> r == AddressNotFound
  {
    match lookup
    case Ok(note) => note
    case Err(_) => AddressNotFound
  }

  /** A hit's message always has a line break, so it never reads as the not-found body. */
  lemma MessageIsNotNotFound(m: MemoAddress)
    ensures Message(m) != AddressNotFound
  {
    var r := Message(m);
    var i := |m.labelText| + |m.chain| + 4;
    assert r[i] == '\n';
    assert '\n' !in AddressNotFound;
  }

  /**
   * The pipeline run when the hotkey fires, given what text capture returned:
   * a failed capture shows nothing; otherwise the title is the shortened
   * text and the body tells a hit (the record's message) from a miss.
   */
  function Present(capture: Result<string>, dict: Table): (n: Option<Note>)
    ensures n.Some? <==> capture.Ok?
    ensures capture.Ok? ==> n.value.summary == ShowText(capture.value)
    ensures capture.Ok? ==> (n.value.body == AddressNotFound <==> Normalize(capture.value) !in dict)
    ensures capture.Ok? && Normalize(capture.value) in dict ==>
              n.value.body == Message(dict[Normalize(capture.value)])
  {
    match capture
    case Err(_) => None
    case Ok(text) =>
      var lookup := GetAddressLabel(text, dict);
      assert Normalize(text) in dict ==> Body(lookup) != AddressNotFound by {
        if Normalize(text) in dict {
          MessageIsNotNotFound(dict[Normalize(text)]);
        }
      }
      Some(Note(ShowText(text), Body(lookup)))
  }

  /** The 17/18 boundary: 17 characters are shown whole, 18 are shortened to 21. */
  lemma TitleBoundary()
    ensures ShowText("0123456789abcdefg") == "0123456789abcdefg"
    ensures ShowText("0123456789abcdefgh") == "0123456789...abcdefgh"
  {
    var t := "0123456789abcdefgh";
    assert t[..10] == "0123456789";
    assert t[10..] == "abcdefgh";
  }
}
