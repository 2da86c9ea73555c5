/**
 * The address-key normalisation used both when the table is built and when a
 * captured text is looked up:
 *   address.replace("0x", "").trim().to_lowercase().replace(' ', "")
 * Strings are ASCII: whitespace is the ASCII part of Rust's `char::is_whitespace`
 * and lowercasing maps only 'A'..'Z'.
 */
module Normalization {

  /** ASCII characters for which Rust's `char::is_whitespace` holds. */
  predicate IsWhitespace(c: char) {
    c == ' ' || c == '\t' || c == '\n' || c == '\r' || c == '\U{000B}' || c == '\U{000C}'
  }

  predicate IsUpper(c: char) {
    'A' <= c <= 'Z'
  }

  function LowerChar(c: char): (r: char)
    ensures !IsUpper(r)
    ensures IsWhitespace(r) <==> IsWhitespace(c)
    ensures !IsUpper(c) ==> r == c
  {
    if IsUpper(c) then (c as int + 32) as char else c
  }

  /** Does the literal "0x" occur anywhere in `s`? */
  predicate Has0x(s: string) {
    exists k :: 0 <= k < |s| - 1 && s[k] == '0' && s[k + 1] == 'x'
  }

  /**
   * `s.replace("0x", "")`: scanning left to right, every non-overlapping
   * occurrence of "0x" is removed. Only the lowercase literal is matched.
   */
  function Strip0x(s: string): (r: string)
    ensures |r| <= |s|
  {
    if |s| < 2 then s
    else if s[0] == '0' && s[1] == 'x' then Strip0x(s[2..])
    else [s[0]] + Strip0x(s[1..])
  }

  /** Without a leading "0x", `s` holds "0x" exactly when its tail does. */
  lemma Has0xTail(s: string)
    requires |s| >= 2 && !(s[0] == '0' && s[1] == 'x')
    ensures Has0x(s) <==> Has0x(s[1..])
  {
    if Has0x(s[1..]) {
      var k :| 0 <= k < |s[1..]| - 1 && s[1..][k] == '0' && s[1..][k + 1] == 'x';
      assert s[k + 1] == '0' && s[k + 2] == 'x';
    }
    if Has0x(s) {
      var k :| 0 <= k < |s| - 1 && s[k] == '0' && s[k + 1] == 'x';
      assert s[1..][k - 1] == '0' && s[1..][k] == 'x';
    }
  }

  /**
   * Stripping only deletes characters, leaves text without "0x" untouched,
   * and always shortens text that has one.
   */
  lemma {:induction false} Strip0xSpec(s: string)
    ensures multiset(Strip0x(s)) <= multiset(s)
    ensures !Has0x(s) ==> Strip0x(s) == s
    ensures Has0x(s) ==> |Strip0x(s)| < |s|
  {
    if |s| >= 2 {
      if s[0] == '0' && s[1] == 'x' {
        assert s == s[..2] + s[2..];
        Strip0xSpec(s[2..]);
      } else {
        assert s == [s[0]] + s[1..];
        Has0xTail(s);
        Strip0xSpec(s[1..]);
      }
    }
  }

  /**
   * Every "0x" the scan reaches is deleted and the scan starts afresh after
   * it. With the identity on text that holds no "0x", this fixes `Strip0x`:
   * split any text at its first "0x" and recurse on the rest.
   */
  lemma {:induction false} Strip0xSplit(a: string, b: string)
    ensures Strip0x(a + "0x" + b) == Strip0x(a) + Strip0x(b)
  {
    var s := a + "0x" + b;
    if |a| == 0 {
      assert s[2..] == b;
    } else if |a| == 1 {
      assert s[1..] == "0x" + b;
      assert s[1..][2..] == b;
    } else if a[0] == '0' && a[1] == 'x' {
      assert s[2..] == a[2..] + "0x" + b;
      Strip0xSplit(a[2..], b);
    } else {
      assert s[1..] == a[1..] + "0x" + b;
      Strip0xSplit(a[1..], b);
    }
  }

  /** Every character of `t` is whitespace. */
  predicate AllWhitespace(t: string) {
    forall k :: 0 <= k < |t| ==> IsWhitespace(t[k])
  }

  /** `trim_start`: drops the leading whitespace. */
  function TrimStart(s: string): (r: string)
    ensures |r| <= |s|
  {
    if |s| > 0 && IsWhitespace(s[0]) then TrimStart(s[1..]) else s
  }

  /** `TrimStart` drops a whitespace prefix and nothing else, stopping at the first other character. */
  lemma {:induction false} TrimStartSpec(s: string)
    ensures TrimStart(s) == s[|s| - |TrimStart(s)|..]
    ensures AllWhitespace(s[..|s| - |TrimStart(s)|])
    ensures TrimStart(s) == [] || !IsWhitespace(TrimStart(s)[0])
  {
    if |s| > 0 && IsWhitespace(s[0]) {
      TrimStartSpec(s[1..]);
      var n := |s| - |TrimStart(s)|;
      assert s[..n] == [s[0]] + s[1..][..n - 1];
    }
  }

  /** `trim_end`: drops the trailing whitespace. */
  function TrimEnd(s: string): (r: string)
    ensures |r| <= |s|
  {
    if |s| > 0 && IsWhitespace(s[|s| - 1]) then TrimEnd(s[..|s| - 1]) else s
  }

  /** `TrimEnd` drops a whitespace suffix and nothing else, stopping at the last other character. */
  lemma {:induction false} TrimEndSpec(s: string)
    ensures TrimEnd(s) == s[..|TrimEnd(s)|]
    ensures AllWhitespace(s[|TrimEnd(s)|..])
    ensures TrimEnd(s) == [] || !IsWhitespace(TrimEnd(s)[|TrimEnd(s)| - 1])
  {
    if |s| > 0 && IsWhitespace(s[|s| - 1]) {
      var init := s[..|s| - 1];
      TrimEndSpec(init);
      var n := |TrimEnd(s)|;
      assert s[n..] == init[n..] + [s[|s| - 1]];
    }
  }

  /** `trim`: both ends. */
  function Trim(s: string): (r: string)
    ensures |r| <= |s|
  {
    TrimEnd(TrimStart(s))
  }

  /** `r` sits in `s` at index `i`, with only whitespace before and after it. */
  predicate IsPaddedBy(s: string, r: string, i: int) {
    0 <= i <= |s| - |r| && r == s[i..i + |r|] && AllWhitespace(s[..i]) && AllWhitespace(s[i + |r|..])
  }

  /**
   * `Trim(s)` is `s` with whitespace removed from both ends and nothing else:
   * a slice of `s` padded only by whitespace that neither starts nor ends with it.
   */
  lemma TrimSpec(s: string)
    ensures exists i :: IsPaddedBy(s, Trim(s), i)
    ensures Trim(s) == [] || (!IsWhitespace(Trim(s)[0]) && !IsWhitespace(Trim(s)[|Trim(s)| - 1]))
  {
    var t := TrimStart(s);
    var r := TrimEnd(t);
    TrimStartSpec(s);
    TrimEndSpec(t);
    var i := |s| - |t|;
    assert s[i + |r|..] == t[|r|..];
    assert IsPaddedBy(s, Trim(s), i);
    assert r != [] ==> r[0] == t[0];
  }

  /** `to_lowercase` on ASCII text. */
  function Lower(s: string): (r: string)
    ensures |r| == |s|
  {
    if s == [] then [] else [LowerChar(s[0])] + Lower(s[1..])
  }

  /** Each character is lowered in place. */
  lemma {:induction false} LowerSpec(s: string)
    ensures forall k :: 0 <= k < |s| ==> Lower(s)[k] == LowerChar(s[k])
  {
    if s != [] {
      LowerSpec(s[1..]);
    }
  }

  /** `replace(' ', "")`: deletes every ASCII space. */
  function RemoveSpaces(s: string): (r: string)
    ensures |r| <= |s|
  {
    if s == [] then []
    else if s[0] == ' ' then RemoveSpaces(s[1..])
    else [s[0]] + RemoveSpaces(s[1..])
  }

  /**
   * The result has no space and the same characters otherwise, each as many
   * times; text without spaces is returned unchanged; and deletion works
   * piecewise, so the kept characters stay in their order.
   */
  lemma {:induction false} RemoveSpacesSpec(s: string)
    ensures ' ' !in RemoveSpaces(s)
    ensures multiset(RemoveSpaces(s)) == multiset(s)[' ' := 0]
    ensures ' ' !in s ==> RemoveSpaces(s) == s
    ensures forall t :: RemoveSpaces(s + t) == RemoveSpaces(s) + RemoveSpaces(t)
  {
    if s != [] {
      assert s == [s[0]] + s[1..];
      RemoveSpacesSpec(s[1..]);
    }
    forall t ensures RemoveSpaces(s + t) == RemoveSpaces(s) + RemoveSpaces(t) {
      RemoveSpacesAppend(s, t);
    }
  }

  lemma {:induction false} RemoveSpacesAppend(a: string, b: string)
    ensures RemoveSpaces(a + b) == RemoveSpaces(a) + RemoveSpaces(b)
  {
    if a == [] {
      assert a + b == b;
    } else {
      assert (a + b)[1..] == a[1..] + b;
      RemoveSpacesAppend(a[1..], b);
    }
  }

  /** Deleting spaces brings in no uppercase letter. */
  lemma {:induction false} RemoveSpacesKeepsLower(s: string)
    requires forall k :: 0 <= k < |s| ==> !IsUpper(s[k])
    ensures forall k :: 0 <= k < |RemoveSpaces(s)| ==> !IsUpper(RemoveSpaces(s)[k])
  {
    if s != [] {
      RemoveSpacesKeepsLower(s[1..]);
    }
  }

  /** The ends of `RemoveSpaces(s)` are the ends of `s` when those are not spaces. */
  lemma RemoveSpacesEnds(s: string)
    requires s != [] && s[0] != ' ' && s[|s| - 1] != ' '
    ensures RemoveSpaces(s) != []
    ensures RemoveSpaces(s)[0] == s[0]
    ensures RemoveSpaces(s)[|RemoveSpaces(s)| - 1] == s[|s| - 1]
  {
    var n := |s|;
    assert s == s[..n - 1] + [s[n - 1]];
    RemoveSpacesAppend(s[..n - 1], [s[n - 1]]);
    assert RemoveSpaces([s[n - 1]]) == [s[n - 1]];
  }

  /** The whole chain, in the source's order. */
  function Normalize(s: string): (r: string)
    ensures |r| <= |s|
  {
    RemoveSpaces(Lower(Trim(Strip0x(s))))
  }

  /**
   * A normalised key holds no space and no uppercase letter, and neither
   * starts nor ends with whitespace.
   */
  lemma NormalizeWellFormed(s: string)
    ensures ' ' !in Normalize(s)
    ensures forall k :: 0 <= k < |Normalize(s)| ==> !IsUpper(Normalize(s)[k])
    ensures var r := Normalize(s); r == [] || (!IsWhitespace(r[0]) && !IsWhitespace(r[|r| - 1]))
  {
    var t := Trim(Strip0x(s));
    var l := Lower(t);
    TrimSpec(Strip0x(s));
    LowerSpec(t);
    RemoveSpacesSpec(l);
    RemoveSpacesKeepsLower(l);
    if l != [] {
      RemoveSpacesEnds(l);
    }
  }

  /**
   * Normalising a key a second time changes it exactly when the key still
   * holds a lowercase "0x". So the chain is not idempotent in general.
   */
  lemma NormalizeFixpoint(s: string)
    ensures Normalize(Normalize(s)) == Normalize(s) <==> !Has0x(Normalize(s))
  {
    var t := Normalize(s);
    NormalizeWellFormed(s);
    Strip0xSpec(t);
    if !Has0x(t) {
      assert TrimStart(t) == t;
      assert TrimEnd(t) == t;
      LowerSpec(t);
      assert Lower(t) == t;
      RemoveSpacesSpec(t);
    } else {
      assert |Strip0x(t)| < |t|;
      assert |Normalize(t)| < |t|;
    }
  }

  lemma StripOverlap()
    ensures Strip0x("00xx") == "0x"
  {
    assert "00xx"[1..] == "0xx";
    assert "0xx"[2..] == "x";
  }

  /** Once "0x" is stripped, text with no whitespace and no uppercase letter is the key itself. */
  lemma KeyOfCleanStrip(s: string, t: string)
    requires Strip0x(s) == t
    requires forall k :: 0 <= k < |t| ==> !IsWhitespace(t[k]) && !IsUpper(t[k])
    ensures Normalize(s) == t
  {
    assert TrimStart(t) == t;
    assert TrimEnd(t) == t;
    LowerSpec(t);
    assert Lower(t) == t;
    RemoveSpacesSpec(t);
  }

  lemma NormalizeOverlap()
    ensures Normalize("00xx") == "0x"
  {
    StripOverlap();
    KeyOfCleanStrip("00xx", "0x");
  }

  lemma NormalizeBare0x()
    ensures Normalize("0x") == ""
  {
    assert Strip0x("0x") == "" by {
      assert "0x"[2..] == "";
    }
  }

  /** "00xx" loses one "0x" and the remaining halves join into a new one. */
  lemma OverlapSurvivesOnce()
    ensures Normalize("00xx") == "0x"
    ensures Normalize(Normalize("00xx")) == ""
  {
    NormalizeOverlap();
    NormalizeBare0x();
  }

  /** Once "0x" is stripped, text with no whitespace is keyed by its lowercase form. */
  lemma KeyOfUnpaddedStrip(s: string, t: string)
    requires Strip0x(s) == t
    requires forall k :: 0 <= k < |t| ==> !IsWhitespace(t[k])
    ensures Normalize(s) == Lower(t)
  {
    assert TrimStart(t) == t;
    assert TrimEnd(t) == t;
    LowerSpec(t);
    assert ' ' !in Lower(t);
    RemoveSpacesSpec(Lower(t));
  }

  lemma StripUpperPrefix()
    ensures Strip0x("0X1") == "0X1"
  {
    assert "0X1"[1..] == "X1";
    assert "X1"[1..] == "1";
  }

  lemma LowerUpperPrefix()
    ensures Lower("0X1") == "0x1"
  {
    var l := Lower("0X1");
    assert l[0] == '0' && l[1] == 'x' && l[2] == '1';
  }

  lemma KeyIsLowerOfUpperPrefix()
    ensures Normalize("0X1") == Lower("0X1")
  {
    StripUpperPrefix();
    KeyOfUnpaddedStrip("0X1", "0X1");
  }

  lemma NormalizeUpperPrefix()
    ensures Normalize("0X1") == "0x1"
  {
    LowerUpperPrefix();
    KeyIsLowerOfUpperPrefix();
  }

  lemma NormalizeLowerPrefix()
    ensures Normalize("0x1") == "1"
  {
    assert Strip0x("0x1") == "1" by {
      assert "0x1"[2..] == "1";
    }
    KeyOfCleanStrip("0x1", "1");
  }

  /** An uppercase "0X" is not stripped but lowered into "0x". */
  lemma UppercasePrefixSurvivesOnce()
    ensures Normalize("0X1") == "0x1"
    ensures Normalize(Normalize("0X1")) == "1"
  {
    NormalizeUpperPrefix();
    NormalizeLowerPrefix();
  }
}
