/** Room id generation for the `/create-room` endpoint. The random bytes and their encoding are
    external; what is modelled is the length arithmetic and the retry on collision. */
module RoomIds {
  import opened Messages
  import opened RoomRegistry
  import Server

  /** The length of every id the endpoint hands out. */
  const RoomIdLength: nat := 6

  /** `Math.ceil(len * 3 / 4)`: how many random bytes are drawn for an id of `len` characters. */
  function RandomByteCount(len: nat): nat {
    (3 * len + 3) / 4
  }

  /** Length of the unpadded base64url encoding of `n` bytes (section 5 of RFC 4648, without the
      `=` padding): each full group of 3 bytes gives 4 characters, a trailing group of 1 byte gives
      2 and a trailing group of 2 bytes gives 3. */
  function Base64UrlLength(n: nat): nat {
    4 * (n / 3) + (if n % 3 == 0 then 0 else n % 3 + 1)
  }

  /** The unpadded encoding has ceil(4n/3) characters. */
  lemma Base64UrlLengthIsCeiling(n: nat)
    ensures 3 * Base64UrlLength(n) >= 4 * n
    ensures 3 * Base64UrlLength(n) < 4 * n + 3
  {
    var q, m := n / 3, n % 3;
    assert n == 3 * q + m;
  }

  /** The encoding of the bytes drawn for `len` characters is at least `len` characters long. */
  lemma EncodingLongEnough(len: nat)
    ensures Base64UrlLength(RandomByteCount(len)) >= len
  {
    var n := RandomByteCount(len);
    assert 4 * n >= 3 * len by {
      var q, m := (3 * len + 3) / 4, (3 * len + 3) % 4;
      assert 3 * len + 3 == 4 * q + m;
    }
    Base64UrlLengthIsCeiling(n);
  }

  /** `makeRoomId(len)`: the first `len` characters of the encoding (JavaScript `slice` stops at
      the end of the string). The id has exactly `len` characters, all taken from the encoding. */
  function MakeRoomId(len: nat, encoded: string): (id: string)
    requires |encoded| == Base64UrlLength(RandomByteCount(len))
    ensures |id| == len
    ensures id <= encoded
  {
    EncodingLongEnough(len);
    var end := if len <= |encoded| then len else |encoded|;
    encoded[..end]
  }

  /** The `/create-room` endpoint: draw ids until one is not a key, then register it as an empty
      room. `draws` are the successive base64url encodings of the random bytes. The endpoint itself
      keeps drawing for as long as it takes; here `found` is false when the supplied draws run out
      before a free id turns up, and then nothing changes. */
  method CreateRoomEndpoint(reg: Registry, draws: seq<string>) returns (found: bool, id: RoomId, reg': Registry)
    requires forall i :: 0 <= i < |draws| ==> |draws[i]| == Base64UrlLength(RandomByteCount(RoomIdLength))
    ensures found ==> |id| == RoomIdLength && id !in reg
    ensures found ==> id in reg' && reg'[id] == [] && reg'.Keys == reg.Keys + {id}
    ensures found ==> forall k :: k in reg ==> reg'[k] == reg[k]
    ensures found ==> exists i :: 0 <= i < |draws| && id == MakeRoomId(RoomIdLength, draws[i])
                                  && forall j :: 0 <= j < i ==> MakeRoomId(RoomIdLength, draws[j]) in reg
    ensures !found ==> reg' == reg
    ensures !found ==> forall i :: 0 <= i < |draws| ==> MakeRoomId(RoomIdLength, draws[i]) in reg
  {
    var i := 0;
    while i < |draws|
      invariant 0 <= i <= |draws|
      invariant forall j :: 0 <= j < i ==> MakeRoomId(RoomIdLength, draws[j]) in reg
    {
      var candidate := MakeRoomId(RoomIdLength, draws[i]);
      if candidate !in reg {
        return true, candidate, Server.CreateRoom(reg, candidate);
      }
      i := i + 1;
    }
    return false, "", reg;
  }
}
