/**
 The two value buffers of a variable in src/common/state.c: raw holds the value as it was
 stored, and val is either raw itself or the separate safe buffer with the escaped form.
 */
module NodeValues {
  import opened CBytes
  import opened ParseConf
  import opened StateTree

  /** snprintf of a string that fits. */
  method PrintString(dest: array<byte>, s: seq<byte>)
    requires NulFree(s) && |s| < dest.Length
    modifies dest
    ensures CStr(dest[..]) == s && Terminated(dest[..])
  {
    for i := 0 to |s|
      invariant dest[..i] == s[..i]
    {
      dest[i] := s[i];
    }
    dest[|s|] := 0;
    assert dest[..][..|s|] == s && dest[..][|s|] == 0;
    StrLenIs(dest[..], |s|);
  }

  lemma {:induction false} CStrNulFree(s: seq<byte>)
    ensures NulFree(CStr(s))
  {
  }

  class NodeValue {
    var raw: array<byte>
    var safe: array<byte>
    var inSafe: bool

    ghost predicate Valid()
      reads this, raw, safe
    {
      raw != safe && Terminated(raw[..]) && (inSafe ==> Terminated(safe[..]))
    }

    ghost function Raw(): (s: seq<byte>)
      reads this, raw
    {
      CStr(raw[..])
    }

    ghost function Val(): (s: seq<byte>)
      reads this, raw, safe
    {
      if inSafe then CStr(safe[..]) else CStr(raw[..])
    }

    /** A new variable: val is what quoting and parsing will see. */
    constructor (value: seq<byte>)
      requires NulFree(value)
      ensures Valid() && Raw() == value && Val() == EncodeInto(value, VALUE_SIZE)
      ensures fresh(raw) && fresh(safe)
    {
      raw := new byte[|value| + 1](_ => 0);
      safe := new byte[0];
      inSafe := false;
      new;
      PrintString(raw, value);
      ValEscape();
    }

    /** Escapes through a buffer of 256 bytes; the safe buffer only ever grows. */
    method ValEscape()
      requires raw != safe && Terminated(raw[..])
      modifies this`safe, this`inSafe, safe
      ensures Valid() && Raw() == old(Raw()) && Val() == EncodeInto(Raw(), VALUE_SIZE)
      ensures safe == old(safe) || fresh(safe)
    {
      hide EncodeInto, Encoded;
      var text := CStr(raw[..]);
      CStrNulFree(raw[..]);
      var etmp := new byte[VALUE_SIZE](_ => 0);
      PconfEncode(text, etmp);
      BufferHoldsEncodingIff(text, etmp[..]);
      var escaped := CStr(etmp[..]);
      CStrNulFree(etmp[..]);
      if text == escaped {
        inSafe := false;
        return;
      }
      if safe.Length < |escaped| + 1 {
        safe := new byte[|escaped| + 1](_ => 0);
      }
      PrintString(safe, escaped);
      inSafe := true;
    }

    /** Storing another value into the same buffers. */
    method Change(value: seq<byte>)
      requires Valid() && NulFree(value)
      modifies this, raw, safe
      ensures Valid() && Raw() == value && Val() == EncodeInto(value, VALUE_SIZE)
      ensures (raw == old(raw) || fresh(raw)) && (safe == old(safe) || fresh(safe))
    {
      if raw.Length < |value| + 1 {
        raw := new byte[|value| + 1](_ => 0);
      }
      PrintString(raw, value);
      ValEscape();
    }
  }
}
