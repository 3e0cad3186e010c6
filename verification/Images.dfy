/** Storage images, and how the library fetches a record from one. */
module Images {
  import opened Endian
  import opened Records

  /** A sparse file or memory: bytes never written read as zero. */
  type Image = map<int, byte>

  function Get(img: Image, at: int): byte {
    if at in img then img[at] else 0
  }

  function Read(img: Image, at: int, n: nat): (s: seq<byte>)
    ensures |s| == n
  {
    seq<byte>(n, i => Get(img, at + i))
  }

  /** The byte of `bytes` that lands on `k` when the first lands on `at`. */
  function Nth(bytes: seq<byte>, at: int, k: int): byte
    requires at <= k < at + |bytes|
  {
    bytes[k - at]
  }

  /** The image after `bytes` have been stored from `at` on. */
  function Put(img: Image, at: int, bytes: seq<byte>): Image {
    img + map k | at <= k < at + |bytes| :: Nth(bytes, at, k)
  }

  lemma GetPut(img: Image, at: int, bytes: seq<byte>, k: int)
    ensures Get(Put(img, at, bytes), k) == if at <= k < at + |bytes| then bytes[k - at] else Get(img, k)
  {
  }

  /** Storing in pieces is storing at once. */
  lemma ReadPut(img: Image, at: int, bytes: seq<byte>)
    ensures Read(Put(img, at, bytes), at, |bytes|) == bytes
  {
    forall i | 0 <= i < |bytes|
      ensures Read(Put(img, at, bytes), at, |bytes|)[i] == bytes[i]
    {
      GetPut(img, at, bytes, at + i);
    }
  }

  lemma PutPut(img: Image, at: int, a: seq<byte>, b: seq<byte>)
    ensures Put(Put(img, at, a), at + |a|, b) == Put(img, at, a + b)
  {
    var l, r := Put(Put(img, at, a), at + |a|, b), Put(img, at, a + b);
    forall k
      ensures k in l <==> k in r
      ensures k in l ==> l[k] == r[k]
    {
      if at <= k < at + |a| {
        assert Nth(a, at, k) == Nth(a + b, at, k);
      } else if at + |a| <= k < at + |a| + |b| {
        assert Nth(b, at + |a|, k) == Nth(a + b, at, k);
      }
    }
  }

  /** What the library reads from: the medium, whether it is mapped or reached by
  a callback, and whether words must be swapped (SDBFS_F_CONVERT32). */
  datatype Device = Device(img: Image, mapped: bool, convert: bool)

  /** The byte that changes places with byte `k` when 32-bit words are swapped. */
  function Mirror(k: int): int {
    k - k % 4 + (3 - k % 4)
  }

  lemma MirrorTwice(k: int)
    ensures Mirror(Mirror(k)) == k
  {
    var q, r := k / 4, k % 4;
    assert Mirror(k) == 4 * q + (3 - r);
  }

  lemma MirrorShift(a: int, k: int)
    requires a % 4 == 0
    ensures Mirror(a + k) == a + Mirror(k)
  {
  }

  lemma MirrorInside(k: int, n: nat)
    requires 0 <= k < n && n % 4 == 0
    ensures 0 <= Mirror(k) < n
  {
  }

  /** The bytes of each 32-bit word in reverse order. */
  function SwapWords(s: seq<byte>): (t: seq<byte>)
    requires |s| % 4 == 0
    ensures |t| == |s|
  {
    seq<byte>(|s|, i requires 0 <= i < |s| => MirrorInside(i, |s|); s[Mirror(i)])
  }

  /** The callback takes its offset as an `int`. */
  function Fetch(dev: Device, at: u64, n: nat): seq<byte> {
    Read(dev.img, if dev.mapped then at else ToInt32(at), n)
  }

  function ReadEntry(dev: Device, at: u64): Record {
    var raw := Fetch(dev, at, RECORD_SIZE);
    if dev.convert then SwapWords(raw) else raw
  }
}
