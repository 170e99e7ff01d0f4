/**
 * The wire format of one exchange: the 4-byte big-endian request
 * (`struct.pack(">I", w)`) and the classification of the response, which is
 * SHORT unless exactly 14 bytes arrived, and otherwise splits into
 * echo[0:4], rx1[4:8], rx2[8:12], st1[12] and st2[13], each status passing
 * exactly when it is the ASCII letter `K`.
 */
module Frame {
  import opened Hex32

  type Byte = b: int | 0 <= b < 256

  /** Length of a complete response frame. */
  const ResponseLength: nat := 14

  /** The status byte that means "pass": ASCII `K`. */
  const StatusOk: Byte := 0x4B

  /** The big-endian value of a byte string. */
  function BigEndian(b: seq<Byte>): nat {
    if b == [] then 0 else BigEndian(b[..|b| - 1]) * 256 + b[|b| - 1]
  }

  lemma BigEndianFour(b: seq<Byte>)
    requires |b| == 4
    ensures BigEndian(b) == ((b[0] as int * 256 + b[1]) * 256 + b[2]) * 256 + b[3]
  {
    assert b[..1][..0] == [];
    assert BigEndian(b[..1]) == b[0];
    assert b[..2][..1] == b[..1];
    assert BigEndian(b[..2]) == b[0] as int * 256 + b[1];
    assert b[..3][..2] == b[..2];
    assert BigEndian(b[..3]) == (b[0] as int * 256 + b[1]) * 256 + b[2];
    assert b[..4] == b;
  }

  /**
   * The request frame: the word as four bytes, most significant first. Each
   * byte is taken from the remainder left by the one before, which gives the
   * same bytes as shifting and masking the whole word.
   */
  function Encode(w: Word32): (tx: seq<Byte>)
    ensures |tx| == 4
    ensures BigEndian(tx) == w
  {
    var low := w % 0x100_0000;
    var mid := low % 0x1_0000;
    var tx: seq<Byte> := [w / 0x100_0000, low / 0x1_0000, mid / 0x100, mid % 0x100];
    BigEndianFour(tx);
    tx
  }

  lemma {:induction false} MulAtLeast(k: nat, m: nat)
    requires k >= 1
    ensures k * m >= m
  {
    if k > 1 {
      MulAtLeast(k - 1, m);
      assert k * m == (k - 1) * m + m;
    }
  }

  /** Dividing `q * m + i` by `m` gives back `q`, with remainder `i`. */
  lemma DivModOf(q: nat, m: nat, i: nat)
    requires i < m
    ensures (q * m + i) / m == q && (q * m + i) % m == i
  {
    var n := q * m + i;
    var d, r := n / m, n % m;
    assert n == d * m + r && 0 <= r < m;
    assert (q - d) * m == r - i;
    if q > d {
      MulAtLeast(q - d, m);
    }
    if q < d {
      MulAtLeast(d - q, m);
    }
  }

  /** Every four bytes are the request frame of exactly one word. */
  lemma EncodeOnto(b: seq<Byte>)
    requires |b| == 4
    ensures BigEndian(b) <= MaxWord && Encode(BigEndian(b)) == b
  {
    BigEndianFour(b);
    var mid := b[2] as int * 0x100 + b[3];
    var low := b[1] as int * 0x1_0000 + mid;
    DivModOf(b[0], 0x100_0000, low);
    DivModOf(b[1], 0x1_0000, mid);
    DivModOf(b[2], 0x100, b[3]);
  }

  /** Distinct words give distinct request frames. */
  lemma EncodeInjective(v: Word32, w: Word32)
    requires Encode(v) == Encode(w)
    ensures v == w
  {
    assert BigEndian(Encode(v)) == v;
  }

  /** One classified exchange, as the session logs it. */
  datatype Record =
    | Short(round: nat, idx: nat, tx: seq<Byte>, rx: seq<Byte>, len: nat)
    | Full(round: nat, idx: nat, tx: seq<Byte>, echo: seq<Byte>, rx1: seq<Byte>, rx2: seq<Byte>,
           st1: Byte, st2: Byte, pass1: bool, pass2: bool)

  /** The classification of the response `rx` to request `tx` in round `round`, position `idx`. */
  function Classify(round: nat, idx: nat, tx: seq<Byte>, rx: seq<Byte>): (r: Record)
    ensures r.round == round && r.idx == idx && r.tx == tx
    ensures r.Short? <==> |rx| != ResponseLength
    ensures r.Short? ==> r.rx == rx && r.len == |rx|
    ensures r.Full? ==> |r.echo| == 4 && |r.rx1| == 4 && |r.rx2| == 4
    ensures r.Full? ==> r.echo + r.rx1 + r.rx2 + [r.st1, r.st2] == rx
    ensures r.Full? ==> (r.pass1 <==> r.st1 == StatusOk) && (r.pass2 <==> r.st2 == StatusOk)
  {
    if |rx| != ResponseLength then
      Short(round, idx, tx, rx, |rx|)
    else
      assert rx == rx[0..4] + rx[4..8] + rx[8..12] + [rx[12], rx[13]];
      Full(round, idx, tx, rx[0..4], rx[4..8], rx[8..12], rx[12], rx[13],
           rx[12] == StatusOk, rx[13] == StatusOk)
  }

  /** The fields of a complete frame are exactly its byte ranges 0-3, 4-7, 8-11, 12 and 13. */
  lemma ClassifyFields(round: nat, idx: nat, tx: seq<Byte>, rx: seq<Byte>)
    requires |rx| == ResponseLength
    ensures var r := Classify(round, idx, tx, rx);
      r.echo == rx[0..4] && r.rx1 == rx[4..8] && r.rx2 == rx[8..12] && r.st1 == rx[12] && r.st2 == rx[13]
  {
    var r := Classify(round, idx, tx, rx);
    var whole := r.echo + r.rx1 + r.rx2 + [r.st1, r.st2];
    assert whole[0..4] == r.echo && whole[4..8] == r.rx1 && whole[8..12] == r.rx2;
    assert whole[12] == r.st1 && whole[13] == r.st2;
  }

  /** Both statuses pass exactly when both status bytes are `K`; `k`, NUL or any other byte fails. */
  lemma FullPassIff(round: nat, idx: nat, tx: seq<Byte>, rx: seq<Byte>)
    requires |rx| == ResponseLength
    ensures var r := Classify(round, idx, tx, rx);
      (r.pass1 && r.pass2) <==> (rx[12] == 'K' as int && rx[13] == 'K' as int)
  {
    ClassifyFields(round, idx, tx, rx);
  }

  /** A device that echoes the request: the echo field is the request and decodes back to the word. */
  lemma EchoRoundTrip(round: nat, idx: nat, w: Word32, tail: seq<Byte>)
    requires |tail| == 10
    ensures var r := Classify(round, idx, Encode(w), Encode(w) + tail);
      r.Full? && r.echo == r.tx && BigEndian(r.echo) == w
  {
    var rx := Encode(w) + tail;
    ClassifyFields(round, idx, Encode(w), rx);
    assert rx[0..4] == Encode(w);
  }

  /** An echoing device that reports two `K` statuses: the exchange passes on both counts. */
  lemma EchoWithTwoK(round: nat, idx: nat, w: Word32, rx1: Word32, rx2: Word32)
    ensures var r := Classify(round, idx, Encode(w), Encode(w) + Encode(rx1) + Encode(rx2) + [StatusOk, StatusOk]);
      r.Full? && r.echo == Encode(w) && r.rx1 == Encode(rx1) && r.rx2 == Encode(rx2) && r.pass1 && r.pass2
  {
    var rx := Encode(w) + Encode(rx1) + Encode(rx2) + [StatusOk, StatusOk];
    ClassifyFields(round, idx, Encode(w), rx);
    assert rx[0..4] == Encode(w) && rx[4..8] == Encode(rx1) && rx[8..12] == Encode(rx2);
  }
}
