/**
 Compact scripts (core/src/compressor.cpp:17-128, core/src/compressor.h:30-101).  Curve
 points are abstract: which full keys are valid, and what a compressed key stands for.
 */
module Scripts {
  import opened CoinsRecord
  import opened Prelude
  import opened VarInts

  type Script = seq<Byte>

  const MAX_SCRIPT_SIZE := 10000
  const nSpecialScripts := 6

  const OP_RETURN: Byte := 0x6a
  const OP_DUP: Byte := 0x76
  const OP_EQUAL: Byte := 0x87
  const OP_EQUALVERIFY: Byte := 0x88
  const OP_HASH160: Byte := 0xa9
  const OP_CHECKSIG: Byte := 0xac

  datatype Curve = Curve(valid: seq<Byte> -> bool, decompress: (Byte, seq<Byte>) -> Option<seq<Byte>>)

  /** A valid full key comes back from its first coordinate and the parity of the second. */
  ghost predicate IsCurve(c: Curve) {
    && (forall key: seq<Byte> :: |key| == 65 && key[0] == 4 && c.valid(key) ==>
          c.decompress(2 + key[64] % 2, key[1..33]) == Some(key))
    && (forall head: Byte, x: seq<Byte> :: c.decompress(head, x).Some? ==> |c.decompress(head, x).value| == 65)
  }

  predicate IsToKeyID(s: Script) {
    |s| == 25 && s[0] == OP_DUP && s[1] == OP_HASH160 && s[2] == 20 && s[23] == OP_EQUALVERIFY && s[24] == OP_CHECKSIG
  }

  predicate IsToScriptID(s: Script) {
    |s| == 23 && s[0] == OP_HASH160 && s[1] == 20 && s[22] == OP_EQUAL
  }

  predicate IsToShortKey(s: Script) {
    |s| == 35 && s[0] == 33 && s[34] == OP_CHECKSIG && (s[1] == 2 || s[1] == 3)
  }

  predicate IsToFullKey(c: Curve, s: Script) {
    |s| == 67 && s[0] == 65 && s[66] == OP_CHECKSIG && s[1] == 4 && c.valid(s[1..66])
  }

  function Compress(c: Curve, s: Script): Option<seq<Byte>> {
    if IsToKeyID(s) then Some([0] + s[3..23])
    else if IsToScriptID(s) then Some([1] + s[2..22])
    else if IsToShortKey(s) then Some([s[1]] + s[2..34])
    else if IsToFullKey(c, s) then Some([4 + s[65] % 2] + s[2..34])
    else None
  }

  function GetSpecialSize(nSize: nat): nat {
    if nSize < 2 then 20 else if nSize < 6 then 32 else 0
  }

  function Decompress(c: Curve, nSize: nat, body: seq<Byte>): Option<Script>
    requires nSize < nSpecialScripts && |body| == GetSpecialSize(nSize)
  {
    if nSize == 0 then Some([OP_DUP, OP_HASH160, 20] + body + [OP_EQUALVERIFY, OP_CHECKSIG])
    else if nSize == 1 then Some([OP_HASH160, 20] + body + [OP_EQUAL])
    else if nSize < 4 then Some([33, nSize] + body + [OP_CHECKSIG])
    else
      var key := c.decompress(nSize - 2, body);
      if key.None? then None else Some([65] + key.value + [OP_CHECKSIG])
  }

  function ScriptBytes(c: Curve, s: Script): seq<Byte> {
    var compr := Compress(c, s);
    if compr.Some? then compr.value else VarInt(|s| + nSpecialScripts) + s
  }

  /** Any other script is stored as it is, behind its length plus six, the number of special forms. */
  lemma OtherScripts(c: Curve, s: Script)
    requires Compress(c, s).None?
    ensures ScriptBytes(c, s) == VarInt(|s| + 6) + s
  {
  }

  function ReadScript(c: Curve, s: seq<Byte>): Read<Script> {
    var size := ReadVar(s, 0);
    if size.None? then None else
      var (n, rest) := size.value;
      if n < nSpecialScripts then
        var k := GetSpecialSize(n);
        if |rest| < k then None else
          var script := Decompress(c, n, rest[..k]);
          Some((if script.Some? then script.value else [], rest[k..]))
      else
        var k := n - nSpecialScripts;
        if |rest| < k then None
        else if k > MAX_SCRIPT_SIZE then Some(([OP_RETURN], rest[k..]))
        else Some((rest[..k], rest[k..]))
  }

  /** A payment to a key hash, by its bytes: 21 of them are stored. */
  lemma KeyHashBytes(c: Curve, hash: seq<Byte>)
    requires |hash| == 20
    ensures Compress(c, [0x76, 0xa9, 0x14] + hash + [0x88, 0xac]) == Some([0] + hash)
  {
    var s: Script := [0x76, 0xa9, 0x14] + hash + [0x88, 0xac];
    assert s[3..23] == hash;
  }

  lemma ScriptHashBytes(c: Curve, hash: seq<Byte>)
    requires |hash| == 20
    ensures Compress(c, [0xa9, 0x14] + hash + [0x87]) == Some([1] + hash)
  {
    var s: Script := [0xa9, 0x14] + hash + [0x87];
    assert s[2..22] == hash;
  }

  lemma ShortKeyBytes(c: Curve, head: Byte, x: seq<Byte>)
    requires |x| == 32 && (head == 2 || head == 3)
    ensures Compress(c, [0x21, head] + x + [0xac]) == Some([head] + x)
  {
    var s: Script := [0x21, head] + x + [0xac];
    assert s[2..34] == x;
  }

  lemma FullKeyBytes(c: Curve, x: seq<Byte>, y: seq<Byte>)
    requires |x| == |y| == 32 && c.valid([4] + x + y)
    ensures Compress(c, [0x41, 4] + x + y + [0xac]) == Some([if y[31] % 2 == 0 then 4 else 5] + x)
  {
    var s: Script := [0x41, 4] + x + y + [0xac];
    assert s[1..66] == [4] + x + y;
    assert s[2..34] == x && s[65] == y[31];
  }

  /** No other script is special. */
  lemma SpecialScripts(c: Curve, s: Script)
    requires Compress(c, s).Some?
    ensures || (|s| == 25 && s == [0x76, 0xa9, 0x14] + s[3..23] + [0x88, 0xac])
            || (|s| == 23 && s == [0xa9, 0x14] + s[2..22] + [0x87])
            || (|s| == 35 && s == [0x21, s[1]] + s[2..34] + [0xac] && 2 <= s[1] <= 3)
            || (|s| == 67 && s == [0x41] + s[1..66] + [0xac] && s[1] == 4 && c.valid(s[1..66]))
  {
  }

  /** Each kind of special script is rebuilt from its bytes. */
  lemma ScriptComesBack(c: Curve, s: Script)
    requires IsCurve(c) && Compress(c, s).Some?
    ensures var out := Compress(c, s).value;
      && |out| > 0 && out[0] < nSpecialScripts && |out| == 1 + GetSpecialSize(out[0])
      && Decompress(c, out[0], out[1..]) == Some(s)
  {
    var out := Compress(c, s).value;
    if IsToKeyID(s) {
      assert s == [OP_DUP, OP_HASH160, 20] + s[3..23] + [OP_EQUALVERIFY, OP_CHECKSIG];
      assert out[1..] == s[3..23];
    } else if IsToScriptID(s) {
      assert s == [OP_HASH160, 20] + s[2..22] + [OP_EQUAL];
      assert out[1..] == s[2..22];
    } else if IsToShortKey(s) {
      assert s == [33, s[1]] + s[2..34] + [OP_CHECKSIG];
      assert out[1..] == s[2..34];
    } else {
      var key := s[1..66];
      assert key[64] == s[65];
      forall i | 0 <= i < 32
        ensures key[1..33][i] == s[2..34][i]
      {
        assert key[1..33][i] == key[1 + i] == s[2 + i];
      }
      assert key[1..33] == s[2..34];
      assert s == [65] + key + [OP_CHECKSIG];
      assert out[1..] == s[2..34];
    }
  }

  lemma ReadSpecial(c: Curve, s: Script, rest: seq<Byte>)
    requires IsCurve(c) && Compress(c, s).Some?
    ensures ReadScript(c, ScriptBytes(c, s) + rest) == Some((s, rest))
  {
    ScriptComesBack(c, s);
    var out := Compress(c, s).value;
    var stream := out + rest;
    assert stream[1..] == out[1..] + rest;
    assert (out[1..] + rest)[..|out| - 1] == out[1..];
    assert (out[1..] + rest)[|out| - 1..] == rest;
  }

  /** A script comes back exactly when it is not too long; a longer one becomes unspendable. */
  lemma ReadScriptBytes(c: Curve, s: Script, rest: seq<Byte>)
    requires IsCurve(c)
    ensures ReadScript(c, ScriptBytes(c, s) + rest) == Some((if |s| <= 10000 then s else [0x6a], rest))
  {
    if Compress(c, s).Some? {
      ReadSpecial(c, s, rest);
    } else {
      hide VarInt, ReadVar, Compress, Decompress;
      assert ScriptBytes(c, s) + rest == VarInt(|s| + nSpecialScripts) + (s + rest);
      ReadWritten(|s| + nSpecialScripts, s + rest);
      assert (s + rest)[..|s|] == s && (s + rest)[|s|..] == rest;
    }
  }

  method SerializeScript(c: Curve, os: seq<Byte>, script: Script) returns (r: seq<Byte>)
    ensures r == os + ScriptBytes(c, script)
  {
    var compr := Compress(c, script);
    if compr.Some? {
      return os + compr.value;
    }
    var nSize := |script| + nSpecialScripts;
    r := WriteVarInt(os, nSize);
    r := r + script;
    assert r == os + (VarInt(nSize) + script);
  }

  method UnserializeScript(c: Curve, s: seq<Byte>) returns (r: Read<Script>)
    ensures r == ReadScript(c, s)
  {
    var size := ReadVarInt(s);
    if size.None? {
      return None;
    }
    var (nSize, rest) := size.value;
    if nSize < nSpecialScripts {
      var k := GetSpecialSize(nSize);
      if |rest| < k {
        return None;
      }
      var script := Decompress(c, nSize, rest[..k]);
      return Some((if script.Some? then script.value else [], rest[k..]));
    }
    nSize := nSize - nSpecialScripts;
    if |rest| < nSize {
      return None;
    }
    if nSize > MAX_SCRIPT_SIZE {
      return Some(([OP_RETURN], rest[nSize..]));
    }
    return Some((rest[..nSize], rest[nSize..]));
  }
}
