/** The fixed-width row record: a 4-byte id, a 32-byte username field and a
    255-byte email field (struct format 'I32s255s'). Usernames and emails
    are byte strings here; their UTF-8 encoding is outside the model. */
module Rows {
  import opened Bytes
  import opened Layout

  datatype Row = Row(id: U32, username: seq<Byte>, email: seq<Byte>)

  predicate NoTrailingNul(s: seq<Byte>)
  {
    s == [] || s[|s| - 1] != 0
  }

  /** struct format 's' of width n: the bytes, truncated or NUL-padded to n. */
  function Field(s: seq<Byte>, n: nat): (r: seq<Byte>)
    ensures |r| == n
    ensures forall i :: 0 <= i < n && i < |s| ==> r[i] == s[i]
    ensures forall i :: |s| <= i < n ==> r[i] == 0
  {
    if |s| >= n then s[..n] else s + Zeros(n - |s|)
  }

  /** rstrip('\x00'): the longest prefix that does not end in a NUL byte;
      every byte dropped is a NUL. */
  function StripNul(s: seq<Byte>): (r: seq<Byte>)
    ensures r <= s && NoTrailingNul(r)
    ensures forall i :: |r| <= i < |s| ==> s[i] == 0
  {
    if NoTrailingNul(s) then s else StripNul(s[..|s| - 1])
  }

  /** serialize_row: fails (struct.error) exactly when the id does not fit
      an unsigned 32-bit word; otherwise ROW_SIZE bytes: the id word, then
      the username and the email, each truncated or NUL-padded to its field. */
  function SerializeRow(id: int, username: seq<Byte>, email: seq<Byte>): (r: Option<seq<Byte>>)
    ensures r.Some? <==> 0 <= id < 0x1_0000_0000
    ensures r.Some? ==> |r.value| == ROW_SIZE && U32At(r.value, 0) == id
    ensures r.Some? ==> r.value[ID_SIZE .. ID_SIZE + USERNAME_SIZE] == Field(username, USERNAME_SIZE)
    ensures r.Some? ==> r.value[ID_SIZE + USERNAME_SIZE .. ROW_SIZE] == Field(email, EMAIL_SIZE)
  {
    if 0 <= id < 0x1_0000_0000 then
      Some(EncodeU32(id) + Field(username, USERNAME_SIZE) + Field(email, EMAIL_SIZE))
    else
      None
  }

  /** deserialize_row: the id word and the two fields with their NUL padding
      stripped; the fields come back within their widths. */
  function DeserializeRow(data: seq<Byte>): (r: Row)
    requires |data| == ROW_SIZE
    ensures |r.username| <= USERNAME_SIZE && |r.email| <= EMAIL_SIZE
    ensures NoTrailingNul(r.username) && NoTrailingNul(r.email)
    ensures r.id == U32At(data, 0)
  {
    Row(U32At(data, 0),
        StripNul(data[ID_SIZE .. ID_SIZE + USERNAME_SIZE]),
        StripNul(data[ID_SIZE + USERNAME_SIZE .. ROW_SIZE]))
  }

  /** Padding a field that fits and has no trailing NUL, then stripping,
      gives the field back. */
  lemma {:induction false} StripField(s: seq<Byte>, n: nat)
    requires |s| <= n && NoTrailingNul(s)
    ensures StripNul(Field(s, n)) == s
  {
    var f := Field(s, n);
    var r := StripNul(f);
    assert |s| > 0 ==> f[|s| - 1] != 0;
    assert r == f[..|s|];
  }

  /** Stripping a field and padding it back to its width restores it: the
      NULs stripped are exactly the padding put back. */
  lemma {:induction false} FieldStrip(s: seq<Byte>)
    ensures Field(StripNul(s), |s|) == s
  {
    var r := StripNul(s);
    var f := Field(r, |s|);
    forall i | 0 <= i < |s|
      ensures f[i] == s[i]
    {
      if i < |r| {
        assert r[i] == s[i];
      }
    }
  }

  /** Row round trip: deserializing what serialize_row wrote gives the row
      back when the id is a 32-bit word and both fields fit their widths
      without trailing NUL bytes. */
  lemma {:induction false} RowRoundTrip(id: U32, username: seq<Byte>, email: seq<Byte>)
    requires |username| <= USERNAME_SIZE && |email| <= EMAIL_SIZE
    requires NoTrailingNul(username) && NoTrailingNul(email)
    ensures SerializeRow(id, username, email).Some?
    ensures DeserializeRow(SerializeRow(id, username, email).value) == Row(id, username, email)
  {
    var u, e := Field(username, USERNAME_SIZE), Field(email, EMAIL_SIZE);
    var data := EncodeU32(id) + u + e;
    assert data[ID_SIZE .. ID_SIZE + USERNAME_SIZE] == u;
    assert data[ID_SIZE + USERNAME_SIZE .. ROW_SIZE] == e;
    assert data[0..4] == EncodeU32(id);
    StripField(username, USERNAME_SIZE);
    StripField(email, EMAIL_SIZE);
  }

  /** Round trip for any row with a 32-bit id: each field comes back
      truncated to its width and without its trailing NUL bytes, so a
      username over 32 bytes loses its tail and a trailing NUL is lost. */
  lemma {:induction false} RowFieldsRoundTrip(id: U32, username: seq<Byte>, email: seq<Byte>)
    ensures SerializeRow(id, username, email).Some?
    ensures DeserializeRow(SerializeRow(id, username, email).value)
            == Row(id, StripNul(Field(username, USERNAME_SIZE)), StripNul(Field(email, EMAIL_SIZE)))
  {
  }

  /** Byte round trip: every ROW_SIZE-byte record is what serialize_row
      writes for the row deserialize_row reads from it. */
  lemma {:induction false} BytesRoundTrip(data: seq<Byte>)
    requires |data| == ROW_SIZE
    ensures var r := DeserializeRow(data); SerializeRow(r.id, r.username, r.email) == Some(data)
  {
    var r := DeserializeRow(data);
    var u, e := data[ID_SIZE .. ID_SIZE + USERNAME_SIZE], data[ID_SIZE + USERNAME_SIZE .. ROW_SIZE];
    FieldStrip(u);
    FieldStrip(e);
    EncodeU32At(data, 0);
    assert data == data[0..4] + u + e;
  }
}
