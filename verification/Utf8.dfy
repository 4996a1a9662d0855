/**
 * Text that is decoded and encoded again: `Buffer.from(b.toString(), "utf8")`.
 * Decoding replaces each maximal ill-formed part by U+FFFD, as the UTF-8 decoder
 * of the WHATWG Encoding Standard does.
 */
module Utf8 {
  import opened ByteStrings

  /** U+FFFD. */
  const REPLACEMENT: Bytes := [0xEF, 0xBF, 0xBD]

  /** How many bytes follow a lead byte in a well-formed sequence. */
  function Needed(lead: byte): (n: nat)
    ensures n <= 3
  {
    if 0xC2 <= lead <= 0xDF then 1
    else if 0xE0 <= lead <= 0xEF then 2
    else if 0xF0 <= lead <= 0xF4 then 3
    else 0
  }

  predicate IsLead(b: byte) {
    b < 0x80 || Needed(b) > 0
  }

  /** `b` can be the byte after `lead` and `have` continuation bytes. */
  predicate Continues(lead: byte, have: nat, b: byte) {
    if have > 0 then 0x80 <= b <= 0xBF
    else
      && (if lead == 0xE0 then 0xA0 else if lead == 0xF0 then 0x90 else 0x80) <= b
      && b <= (if lead == 0xED then 0x9F else if lead == 0xF4 then 0x8F else 0xBF)
  }

  /** The continuation bytes that belong to a sequence of which `have` were read. */
  function Continuation(lead: byte, have: nat, b: Bytes): (n: nat)
    requires have <= Needed(lead)
    ensures have <= n <= Needed(lead) && n <= have + |b|
    decreases |b|
  {
    if have == Needed(lead) || b == [] || !Continues(lead, have, b[0]) then have
    else Continuation(lead, have + 1, b[1..])
  }

  /** The length of the first sequence, or of the maximal part of one. */
  function Length(b: Bytes): (n: nat)
    requires b != []
    ensures 1 <= n <= |b|
  {
    1 + Continuation(b[0], 0, b[1..])
  }

  /** The first sequence is well formed. */
  predicate IsComplete(b: Bytes)
    requires b != []
  {
    IsLead(b[0]) && Length(b) == 1 + Needed(b[0])
  }

  function Reencoded(b: Bytes): Bytes {
    if b == [] then []
    else (if IsComplete(b) then b[..Length(b)] else REPLACEMENT) + Reencoded(b[Length(b)..])
  }

  predicate IsWellFormed(b: Bytes) {
    b == [] || (IsComplete(b) && IsWellFormed(b[Length(b)..]))
  }

  lemma {:induction false} ContinuationThen(lead: byte, have: nat, b: Bytes, rest: Bytes)
    requires have <= Needed(lead) && Continuation(lead, have, b) == Needed(lead) == have + |b|
    ensures Continuation(lead, have, b + rest) == Needed(lead)
    decreases |b|
  {
    if b != [] {
      assert (b + rest)[1..] == b[1..] + rest;
      ContinuationThen(lead, have + 1, b[1..], rest);
    }
  }

  /** Whether a sequence is complete does not depend on what follows it. */
  lemma CompleteThen(p: Bytes, rest: Bytes)
    requires p != [] && IsComplete(p) && Length(p) == |p|
    ensures IsComplete(p + rest) && Length(p + rest) == |p|
  {
    assert (p + rest)[1..] == p[1..] + rest;
    ContinuationThen(p[0], 0, p[1..], rest);
  }

  lemma {:induction false} ContinuationPrefix(lead: byte, have: nat, b: Bytes)
    requires have <= Needed(lead)
    ensures
      var n := Continuation(lead, have, b);
      Continuation(lead, have, b[..n - have]) == n
    decreases |b|
  {
    var n := Continuation(lead, have, b);
    if n > have {
      assert b[..n - have][1..] == b[1..][..n - have - 1];
      ContinuationPrefix(lead, have + 1, b[1..]);
    }
  }

  lemma CompletePrefix(b: Bytes)
    requires b != [] && IsComplete(b)
    ensures
      var p := b[..Length(b)];
      p != [] && IsComplete(p) && Length(p) == |p|
  {
    ContinuationPrefix(b[0], 0, b[1..]);
    assert b[..Length(b)][1..] == b[1..][..Length(b) - 1];
  }

  lemma ReplacementIsComplete()
    ensures IsComplete(REPLACEMENT) && Length(REPLACEMENT) == 3
  {
    assert REPLACEMENT[1..] == [0xBF, 0xBD];
    assert [0xBF, 0xBD][1..] == [0xBD];
    assert [0xBD][1..] == [];
    assert Continuation(0xEF, 2, [0xBD]) == 2;
    assert Continuation(0xEF, 1, [0xBD]) == 2;
    assert Continuation(0xEF, 0, [0xBF, 0xBD]) == 2;
  }

  /** Text that was decoded and encoded again is well formed. */
  lemma {:induction false} ReencodedIsWellFormed(b: Bytes)
    ensures IsWellFormed(Reencoded(b))
  {
    if b != [] {
      var rest := Reencoded(b[Length(b)..]);
      ReencodedIsWellFormed(b[Length(b)..]);
      var first := if IsComplete(b) then b[..Length(b)] else REPLACEMENT;
      if IsComplete(b) {
        CompletePrefix(b);
      } else {
        ReplacementIsComplete();
      }
      CompleteThen(first, rest);
      assert (first + rest)[|first|..] == rest;
    }
  }

  /** Decoding and encoding again changes exactly the ill-formed texts. */
  lemma {:induction false} FixedIffWellFormed(b: Bytes)
    ensures Reencoded(b) == b <==> IsWellFormed(b)
  {
    if b != [] {
      var n := Length(b);
      assert b == b[..n] + b[n..];
      if IsComplete(b) {
        FixedIffWellFormed(b[n..]);
        assert Reencoded(b)[n..] == Reencoded(b[n..]);
      } else if Reencoded(b) == b {
        ReplacementIsComplete();
        CompleteThen(REPLACEMENT, Reencoded(b[n..]));
        assert false;
      }
    }
  }

  lemma {:induction false} AsciiIsWellFormed(b: Bytes)
    requires forall i :: 0 <= i < |b| ==> b[i] < 0x80
    ensures IsWellFormed(b)
  {
    if b != [] {
      AsciiIsWellFormed(b[1..]);
    }
  }

  /** Different ill-formed texts can become one text. */
  lemma StrayBytesCoincide(x: byte, y: byte)
    requires 0x80 <= x < 0xC0 && 0x80 <= y < 0xC0
    ensures Reencoded([x]) == Reencoded([y]) == REPLACEMENT
  {
    assert [x][1..] == [] && [y][1..] == [];
    assert Reencoded([]) == [];
  }

  // ----------------------------------------------- well-formed is encoded text

  /** Code points other than surrogates. */
  predicate IsScalarValue(c: nat) {
    c < 0xD800 || 0xE000 <= c < 0x11_0000
  }

  predicate AreScalarValues(text: seq<nat>) {
    forall i :: 0 <= i < |text| ==> IsScalarValue(text[i])
  }

  /** The encoding of RFC 3629 section 3. */
  function EncodeScalar(c: nat): Bytes
    requires IsScalarValue(c)
  {
    if c < 0x80 then [c]
    else if c < 0x800 then [0xC0 + c / 0x40, 0x80 + c % 0x40]
    else if c < 0x1_0000 then [0xE0 + c / 0x1000, 0x80 + c / 0x40 % 0x40, 0x80 + c % 0x40]
    else [0xF0 + c / 0x4_0000, 0x80 + c / 0x1000 % 0x40, 0x80 + c / 0x40 % 0x40, 0x80 + c % 0x40]
  }

  function EncodeText(text: seq<nat>): Bytes
    requires AreScalarValues(text)
  {
    if text == [] then [] else EncodeScalar(text[0]) + EncodeText(text[1..])
  }

  /** A sequence is complete by itself if it has its bytes, and each continues it. */
  lemma CompleteIff(b: Bytes)
    requires b != []
    ensures IsComplete(b) && Length(b) == |b| <==>
              && IsLead(b[0]) && |b| == 1 + Needed(b[0])
              && forall i :: 1 <= i < |b| ==> Continues(b[0], i - 1, b[i])
  {
    if |b| == 1 + Needed(b[0]) {
      AllContinueIff(b[0], 0, b[1..]);
      assert forall i :: 1 <= i < |b| ==> b[i] == b[1..][i - 1];
    }
  }

  lemma {:induction false} AllContinueIff(lead: byte, have: nat, b: Bytes)
    requires have + |b| == Needed(lead)
    ensures Continuation(lead, have, b) == Needed(lead)
       <==> forall i :: 0 <= i < |b| ==> Continues(lead, have + i, b[i])
    decreases |b|
  {
    if b != [] && Continues(lead, have, b[0]) {
      AllContinueIff(lead, have + 1, b[1..]);
      assert forall i :: 1 <= i < |b| ==> b[i] == b[1..][i - 1];
      assert forall i :: 0 <= i < |b[1..]| ==> b[1..][i] == b[i + 1];
    }
  }

  lemma EncodedIsComplete(c: nat)
    requires IsScalarValue(c)
    ensures EncodeScalar(c) != [] && IsComplete(EncodeScalar(c)) && Length(EncodeScalar(c)) == |EncodeScalar(c)|
  {
    CompleteIff(EncodeScalar(c));
  }

  /** The value of four groups of six bits. */
  function FromGroups(w: nat, x: nat, y: nat, z: nat): nat {
    0x4_0000 * w + 0x1000 * x + 0x40 * y + z
  }

  lemma GroupsOf(w: nat, x: nat, y: nat, z: nat)
    requires x < 0x40 && y < 0x40 && z < 0x40
    ensures
      var c := FromGroups(w, x, y, z);
      c / 0x4_0000 == w && c / 0x1000 == 0x40 * w + x && c / 0x40 == 0x1000 * w + 0x40 * x + y && c % 0x40 == z
    ensures
      var c := FromGroups(w, x, y, z);
      c / 0x1000 % 0x40 == x && c / 0x40 % 0x40 == y
  {
  }

  lemma TwoBytes(b: Bytes) returns (c: nat)
    requires |b| == 2 && Needed(b[0]) == 1 && Continues(b[0], 0, b[1])
    ensures IsScalarValue(c) && b == EncodeScalar(c)
  {
    var y, z := b[0] as int - 0xC0, b[1] as int - 0x80;
    c := FromGroups(0, 0, y, z);
    GroupsOf(0, 0, y, z);
  }

  lemma ThreeBytes(b: Bytes) returns (c: nat)
    requires |b| == 3 && Needed(b[0]) == 2 && Continues(b[0], 0, b[1]) && Continues(b[0], 1, b[2])
    ensures IsScalarValue(c) && b == EncodeScalar(c)
  {
    var x, y, z := b[0] as int - 0xE0, b[1] as int - 0x80, b[2] as int - 0x80;
    c := FromGroups(0, x, y, z);
    GroupsOf(0, x, y, z);
  }

  lemma FourBytes(b: Bytes) returns (c: nat)
    requires |b| == 4 && Needed(b[0]) == 3
    requires Continues(b[0], 0, b[1]) && Continues(b[0], 1, b[2]) && Continues(b[0], 2, b[3])
    ensures IsScalarValue(c) && b == EncodeScalar(c)
  {
    var w, x, y, z := b[0] as int - 0xF0, b[1] as int - 0x80, b[2] as int - 0x80, b[3] as int - 0x80;
    c := FromGroups(w, x, y, z);
    GroupsOf(w, x, y, z);
  }

  lemma CompleteIsEncoded(b: Bytes) returns (c: nat)
    requires b != [] && IsComplete(b) && Length(b) == |b|
    ensures IsScalarValue(c) && b == EncodeScalar(c)
  {
    CompleteIff(b);
    if |b| == 1 {
      c := b[0];
    } else if |b| == 2 {
      c := TwoBytes(b);
    } else if |b| == 3 {
      c := ThreeBytes(b);
    } else {
      c := FourBytes(b);
    }
  }

  lemma {:induction false} EncodedIsWellFormed(text: seq<nat>)
    requires AreScalarValues(text)
    ensures IsWellFormed(EncodeText(text))
  {
    if text != [] {
      var first, rest := EncodeScalar(text[0]), EncodeText(text[1..]);
      EncodedIsComplete(text[0]);
      EncodedIsWellFormed(text[1..]);
      CompleteThen(first, rest);
      assert (first + rest)[|first|..] == rest;
    }
  }

  lemma {:induction false} WellFormedIsEncoded(b: Bytes) returns (text: seq<nat>)
    requires IsWellFormed(b)
    ensures AreScalarValues(text) && EncodeText(text) == b
  {
    if b == [] {
      text := [];
    } else {
      CompletePrefix(b);
      var c := CompleteIsEncoded(b[..Length(b)]);
      var rest := WellFormedIsEncoded(b[Length(b)..]);
      text := [c] + rest;
      assert text[1..] == rest && b == b[..Length(b)] + b[Length(b)..];
    }
  }

  /** Bytes are well formed exactly when they encode some text, surrogates excluded. */
  lemma WellFormedIff(b: Bytes)
    ensures IsWellFormed(b) <==> exists text :: AreScalarValues(text) && EncodeText(text) == b
  {
    if IsWellFormed(b) {
      var text := WellFormedIsEncoded(b);
    }
    if text :| AreScalarValues(text) && EncodeText(text) == b {
      EncodedIsWellFormed(text);
    }
  }
}
