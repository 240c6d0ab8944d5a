/**
 * Sending a message in packages (distributed/mpibig.cpp).  The largest package size, the largest int in the
 * code, is a parameter.  Packages arrive complete and in order (section 3.5 of the MPI standard, version 3.1).
 */
module MpiBig {
  import opened Common
  import opened Shares

  type byte = x: int | 0 <= x < 256

  // ----- the header

  /** The first 8 bytes of a message hold the number of packages. */
  const HEADER := 8

  function Encode(n: nat, bytes: nat): (r: seq<byte>)
    ensures |r| == bytes
  {
    if bytes == 0 then [] else [n % 256] + Encode(n / 256, bytes - 1)
  }

  function Decode(bytes: seq<byte>): nat {
    if bytes == [] then 0 else bytes[0] + 256 * Decode(bytes[1..])
  }

  function Pow256(n: nat): (r: nat)
    ensures r > 0
  {
    if n == 0 then 1 else 256 * Pow256(n - 1)
  }

  lemma {:induction false} HeaderRoundTrip(n: nat, bytes: nat)
    requires n < Pow256(bytes)
    ensures Decode(Encode(n, bytes)) == n
  {
    if bytes > 0 {
      HeaderRoundTrip(n / 256, bytes - 1);
      assert Encode(n, bytes)[1..] == Encode(n / 256, bytes - 1);
    }
  }

  /** The header holds any 64-bit number. */
  lemma HeaderHoldsWord()
    ensures Pow256(HEADER) == WORD
  {
    assert Pow256(4) == 256 * 256 * 256 * 256;
    assert Pow256(8) == 256 * 256 * 256 * 256 * Pow256(4);
  }

  /** Byte k of an encoded number is its k-th digit to the base 256, the lowest one first. */
  lemma {:induction false} EncodedByte(n: nat, bytes: nat, k: nat)
    requires k < bytes
    ensures Encode(n, bytes)[k] == n / Pow256(k) % 256
  {
    if k > 0 {
      EncodedByte(n / 256, bytes - 1, k - 1);
      DivTwice(n, 256, Pow256(k - 1));
    }
  }

  lemma DivTwice(n: nat, a: nat, b: nat)
    requires a > 0 && b > 0
    ensures 0 < a * b && n / a / b == n / (a * b)
  {
    var m := n / a;
    NestedQuotient(n, m, n % a, m / b, m % b, a, b);
  }

  lemma NestedQuotient(n: nat, m: nat, r: nat, q: nat, s: nat, a: nat, b: nat)
    requires n == m * a + r && m == q * b + s && s < b && r < a
    ensures 0 < a * b && n / (a * b) == q
  {
    Nested(n, q, s, r, a, b);
    Quotient(n, q, s * a + r, a * b);
  }

  lemma Nested(n: nat, q: nat, s: nat, r: nat, a: nat, b: nat)
    requires n == (q * b + s) * a + r && s < b && r < a
    ensures 0 <= s * a + r < a * b && n == q * (a * b) + (s * a + r)
  {
    assert (s + 1) * a <= b * a;
    assert (q * b + s) * a == q * b * a + s * a;
    assert q * b * a == q * (a * b);
  }

  // ----- packages

  function PackageCount(count: nat, most: nat): (r: nat)
    requires most > 0
    ensures r > 0
  {
    if count <= most then 1 else 1 + PackageCount(count - most, most)
  }

  /** The code's expression for the number of packages. */
  lemma {:induction false} PackageCountIs(count: nat, most: nat)
    requires most > 0 && count > 0
    ensures PackageCount(count, most) == (count + most - 1) / most
    decreases count
  {
    if count > most {
      PackageCountIs(count - most, most);
      OneMore(count - 1, most);
    } else {
      Between(count - 1, most);
    }
  }

  lemma OneMore(x: nat, most: nat)
    requires most > 0
    ensures (x + most) / most == x / most + 1 && (x + most) % most == x % most
  {
    var q, r := x / most, x % most;
    assert x + most == (q + 1) * most + r;
    Quotient(x + most, q + 1, r, most);
  }

  lemma Between(x: nat, most: nat)
    requires x < most
    ensures (x + most) / most == 1
  {
    Quotient(x + most, 1, x, most);
  }

  lemma Quotient(x: nat, q: nat, r: nat, most: nat)
    requires r < most && x == q * most + r
    ensures x / most == q && x % most == r
  {
    assert x < (q + 1) * most;
    DivAtLeast(x, most, q);
    DivAtMost(x, most, q);
  }

  /** The size of the last package. */
  function LastSize(count: nat, most: nat): (r: nat)
    requires most > 0
    ensures r <= count
  {
    if count < most then count else if count == most then 0 else LastSize(count - most, most)
  }

  /** The code's expression for the size of the last package. */
  lemma {:induction false} LastSizeIs(count: nat, most: nat)
    requires most > 0
    ensures LastSize(count, most) == count % most
    decreases count
  {
    if count > most {
      LastSizeIs(count - most, most);
      OneMore(count - most, most);
    } else if count == most {
      Quotient(count, 1, 0, most);
    } else {
      Quotient(count, 0, count, most);
    }
  }

  /** The packages of a message: full ones, and a last one of the remainder of the size by the largest package. */
  ghost function Packages(data: seq<byte>, most: nat): (r: seq<seq<byte>>)
    requires most > 0
    ensures |r| == PackageCount(|data|, most)
    decreases |data|
  {
    if |data| <= most then [data[..LastSize(|data|, most)]] else [data[..most]] + Packages(data[most..], most)
  }

  // ----- receiving

  datatype Outcome =
    | Received(buffer: seq<byte>, pending: seq<seq<byte>>)
    | Truncated   // a package is larger than the part of the buffer it should fill
    | Waiting     // no package is left to receive

  function Written(buffer: seq<byte>, at: nat, package: seq<byte>): (r: seq<byte>)
    requires at + |package| <= |buffer|
    ensures |r| == |buffer|
  {
    buffer[..at] + package + buffer[at + |package|..]
  }

  /** Receives n packages into the buffer from position `at` on. */
  ghost function ReceiveFrom(buffer: seq<byte>, at: nat, n: nat, packages: seq<seq<byte>>, most: nat): (r: Outcome)
    requires at <= |buffer|
    ensures r.Received? ==> |r.buffer| == |buffer|
    decreases n
  {
    if n == 0 then Received(buffer, packages)
    else if packages == [] then Waiting
    else
      var partSize := Min(most, |buffer| - at);
      if |packages[0]| > partSize then Truncated
      else ReceiveFrom(Written(buffer, at, packages[0]), at + partSize, n - 1, packages[1..], most)
  }

  /**
   * How many packages the loop still waits for after the first: it counts from 1 until the number in the header,
   * unsigned.
   */
  function StillToCome(header: nat): nat { if header == 0 then WORD - 1 else header - 1 }

  ghost function Receive(buffer: seq<byte>, packages: seq<seq<byte>>, most: nat): (r: Outcome)
    requires HEADER <= |buffer|
    ensures r.Received? ==> |r.buffer| == |buffer|
  {
    if packages == [] then Waiting
    else
      var firstSize := Min(most, |buffer|);
      if |packages[0]| > firstSize then Truncated
      else
        var first := Written(buffer, 0, packages[0]);
        ReceiveFrom(first, firstSize, StillToCome(Decode(first[..HEADER])), packages[1..], most)
  }

  // ----- the round trip

  /** The receiver gets the message, for any contents of its buffer before. */
  ghost predicate RoundTrips(data: seq<byte>, most: nat)
    requires most > 0 && HEADER <= |data|
  {
    forall buffer: seq<byte> {:trigger Receive(buffer, Packages(data, most), most)} ::
      |buffer| == |data| ==> Receive(buffer, Packages(data, most), most) == Received(data, [])
  }

  /** A message as it is sent: with the number of packages in its header. */
  ghost predicate HasHeader(data: seq<byte>, most: nat)
    requires most > 0
  {
    HEADER <= |data| && PackageCount(|data|, most) < WORD &&
        data[..HEADER] == Encode(PackageCount(|data|, most), HEADER)
  }

  lemma WrittenNext(buffer: seq<byte>, data: seq<byte>, at: nat, package: seq<byte>)
    requires |buffer| == |data| && at + |package| <= |data| && buffer[..at] == data[..at] &&
             package == data[at..at + |package|]
    ensures Written(buffer, at, package)[..at + |package|] == data[..at + |package|]
  {
  }

  lemma LastArrives(buffer: seq<byte>, data: seq<byte>, at: nat, most: nat)
    requires most > 0 && |buffer| == |data| && at <= |data| <= at + most && buffer[..at] == data[..at] &&
             LastSize(|data| - at, most) != 0
    ensures ReceiveFrom(buffer, at, PackageCount(|data| - at, most), Packages(data[at..], most), most) ==
            Received(data, [])
  {
    var packages := Packages(data[at..], most);
    var last := Written(buffer, at, packages[0]);
    WrittenNext(buffer, data, at, packages[0]);
    assert last[..|data|] == data[..|data|] && last == data;
    assert packages[1..] == [];
  }

  lemma {:induction false} RestArrives(buffer: seq<byte>, data: seq<byte>, at: nat, most: nat)
    requires most > 0 && |buffer| == |data| && at <= |data| && buffer[..at] == data[..at] &&
             LastSize(|data| - at, most) != 0
    ensures ReceiveFrom(buffer, at, PackageCount(|data| - at, most), Packages(data[at..], most), most) ==
            Received(data, [])
    decreases |data| - at
  {
    var rest := data[at..];
    if |rest| <= most {
      LastArrives(buffer, data, at, most);
    } else {
      var packages := Packages(rest, most);
      WrittenNext(buffer, data, at, packages[0]);
      RestArrives(Written(buffer, at, packages[0]), data, at + most, most);
      assert rest[most..] == data[at + most..];
      assert packages[1..] == Packages(rest[most..], most);
    }
  }

  lemma WordIsPow()
    ensures WORD == Pow256(HEADER)
  {
    assert Pow256(4) == 256 * 256 * 256 * 256;
    assert Pow256(8) == 256 * 256 * 256 * 256 * Pow256(4);
  }

  /** If the size is not a multiple of the largest package, the message arrives. */
  lemma ArrivesWithRemainder(data: seq<byte>, buffer: seq<byte>, most: nat)
    requires HEADER <= most && HasHeader(data, most) && LastSize(|data|, most) != 0 && |buffer| == |data|
    ensures Receive(buffer, Packages(data, most), most) == Received(data, [])
  {
    var first := FirstArrives(data, buffer, most);
    WordIsPow();
    HeaderRoundTrip(PackageCount(|data|, most), HEADER);
  }

  /** The buffer after the first package, which brings the header; the rest follows. */
  lemma FirstArrives(data: seq<byte>, buffer: seq<byte>, most: nat) returns (first: seq<byte>)
    requires HEADER <= most && HEADER <= |data| == |buffer| && LastSize(|data|, most) != 0
    ensures Packages(data, most) != [] && |Packages(data, most)[0]| <= Min(most, |buffer|)
    ensures first == Written(buffer, 0, Packages(data, most)[0]) && first[..HEADER] == data[..HEADER]
    ensures PackageCount(|data|, most) > 0
    ensures ReceiveFrom(first, Min(most, |data|), PackageCount(|data|, most) - 1, Packages(data, most)[1..], most) ==
            Received(data, [])
  {
    var packages := Packages(data, most);
    first := Written(buffer, 0, packages[0]);
    WrittenNext(buffer, data, 0, packages[0]);
    if |data| <= most {
      assert first[..|data|] == data[..|data|] && first == data;
    } else {
      RestArrives(first, data, most, most);
      assert packages[1..] == Packages(data[most..], most);
    }
    assert first[..HEADER] == data[..HEADER];
  }

  /** Packages that leave the last byte of a buffer with `left` bytes to fill alone. */
  ghost predicate Short(packages: seq<seq<byte>>, left: nat, most: nat)
    requires most > 0
    decreases left
  {
    packages == [] ||
    if left <= most then packages[0] == [] && packages[1..] == []
    else |packages[0]| <= most && Short(packages[1..], left - most, most)
  }

  /** If the size is a multiple of the largest package, the packages do not reach the last byte. */
  lemma {:induction false} MultiplesAreShort(data: seq<byte>, most: nat)
    requires most > 0 && LastSize(|data|, most) == 0
    ensures Short(Packages(data, most), |data|, most)
    decreases |data|
  {
    if |data| > most {
      MultiplesAreShort(data[most..], most);
      assert Packages(data, most)[1..] == Packages(data[most..], most);
    }
  }

  lemma {:induction false} LastByteStays(buffer: seq<byte>, at: nat, n: nat, packages: seq<seq<byte>>, most: nat)
    requires most > 0 && 0 < |buffer| && at <= |buffer| && Short(packages, |buffer| - at, most) &&
             (at == |buffer| ==> packages == [])
    ensures var r := ReceiveFrom(buffer, at, n, packages, most); r.Received? ==>
            r.buffer[|buffer| - 1] == buffer[|buffer| - 1]
    decreases n
  {
    if n > 0 && packages != [] {
      if |buffer| <= at + most {
        assert Written(buffer, at, []) == buffer;
      } else {
        LastByteStays(Written(buffer, at, packages[0]), at + most, n - 1, packages[1..], most);
      }
    }
  }

  /** Receiving goes on after the first package, for as many packages as the header says. */
  lemma AfterFirst(buffer: seq<byte>, packages: seq<seq<byte>>, most: nat) returns (n: nat)
    requires HEADER <= |buffer| && packages != [] && |packages[0]| <= Min(most, |buffer|)
    ensures Receive(buffer, packages, most) ==
            ReceiveFrom(Written(buffer, 0, packages[0]), Min(most, |buffer|), n, packages[1..], most)
  {
    n := StillToCome(Decode(Written(buffer, 0, packages[0])[..HEADER]));
  }

  lemma FirstIsShort(packages: seq<seq<byte>>, buffer: seq<byte>, most: nat)
          returns (first: seq<byte>, at: nat, pending: seq<seq<byte>>)
    requires 0 < most && 0 < |buffer| && packages != [] && Short(packages, |buffer|, most)
    ensures |packages[0]| <= at == Min(most, |buffer|) && first == Written(buffer, 0, packages[0]) &&
            pending == packages[1..]
    ensures |first| == |buffer| && first[|buffer| - 1] == buffer[|buffer| - 1] && at <= |first| &&
            (at == |first| ==> pending == [])
    ensures Short(pending, |first| - at, most)
  {
    first, at, pending := Written(buffer, 0, packages[0]), Min(most, |buffer|), packages[1..];
  }

  lemma LastByteMissing(packages: seq<seq<byte>>, buffer: seq<byte>, most: nat)
    requires HEADER <= most && HEADER <= |buffer| && packages != [] && Short(packages, |buffer|, most)
    ensures var r := Receive(buffer, packages, most); r.Received? ==> r.buffer[|buffer| - 1] == buffer[|buffer| - 1]
  {
    var first, at, pending := FirstIsShort(packages, buffer, most);
    var n := AfterFirst(buffer, packages, most);
    LastByteStays(first, at, n, pending, most);
  }

  /** If the size is a multiple of the largest package, a receiver whose last byte differs does not get the message. */
  lemma FailsWithMultiples(data: seq<byte>, most: nat)
    requires HEADER <= most && HasHeader(data, most) && LastSize(|data|, most) == 0
    ensures !RoundTrips(data, most)
  {
    var last := |data| - 1;
    var other: byte := if data[last] == 0 then 1 else 0;
    var buffer := data[last := other];
    MultiplesAreShort(data, most);
    LastByteMissing(Packages(data, most), buffer, most);
    assert Receive(buffer, Packages(data, most), most) != Received(data, []);
  }

  /**
   * A message arrives whatever the receive buffer held, if and only if its size is not a multiple of the largest
   * package.
   */
  lemma ArrivesIffRemainder(data: seq<byte>, most: nat)
    requires HEADER <= most && HasHeader(data, most)
    ensures RoundTrips(data, most) <==> |data| % most != 0
  {
    LastSizeIs(|data|, most);
    if LastSize(|data|, most) != 0 {
      forall buffer: seq<byte> | |buffer| == |data|
        ensures Receive(buffer, Packages(data, most), most) == Received(data, []) {
        ArrivesWithRemainder(data, buffer, most);
      }
    } else {
      FailsWithMultiples(data, most);
    }
  }

  // ----- the two functions

  method CountPackages(count: nat, most: nat) returns (nPackages: nat)
    requires 0 < count && 0 < most
    ensures nPackages == PackageCount(count, most)
  {
    PackageCountIs(count, most);
    nPackages := (count + most - 1) / most;
  }

  method SizeOfLast(count: nat, most: nat) returns (partCount: nat)
    requires 0 < most
    ensures partCount == LastSize(count, most)
  {
    LastSizeIs(count, most);
    partCount := count % most;
  }

  /** The packages sent so far, up to position `part`, and those of the rest are those of the message. */
  ghost predicate Sending(data: seq<byte>, most: nat, part: nat, toSend: nat, sent: seq<seq<byte>>)
    requires most > 0
  {
    part <= |data| && PackageCount(|data| - part, most) == toSend &&
        sent + Packages(data[part..], most) == Packages(data, most) &&
    LastSize(|data| - part, most) == LastSize(|data|, most)
  }

  lemma SendFull(data: seq<byte>, most: nat, part: nat, toSend: nat, sent: seq<seq<byte>>)
    requires most > 0 && Sending(data, most, part, toSend, sent) && toSend > 1
    ensures part + most < |data| && Sending(data, most, part + most, toSend - 1, sent + [data[part..part + most]])
  {
    var rest := data[part..];
    assert rest[..most] == data[part..part + most] && rest[most..] == data[part + most..];
    assert sent + ([rest[..most]] + Packages(rest[most..], most)) ==
      sent + [rest[..most]] + Packages(rest[most..], most);
  }

  lemma SendLast(data: seq<byte>, most: nat, part: nat, sent: seq<seq<byte>>)
    requires most > 0 && Sending(data, most, part, 1, sent)
    ensures part + LastSize(|data|, most) <= |data| &&
            sent + [data[part..part + LastSize(|data|, most)]] == Packages(data, most)
  {
    var rest, n := data[part..], LastSize(|data|, most);
    assert rest[..n] == data[part..part + n];
  }

  /** MPI_Send_Big: writes the header and sends the packages. */
  method SendBig(buf: array<byte>, most: nat) returns (sent: seq<seq<byte>>)
    requires HEADER <= buf.Length && 0 < most && PackageCount(buf.Length, most) < WORD
    modifies buf
    ensures HasHeader(buf[..], most) && buf[HEADER..] == old(buf[HEADER..])
    ensures sent == Packages(buf[..], most)
  {
    var nPackages := CountPackages(buf.Length, most);
    WriteHeader(buf, nPackages);
    assert buf[..][..HEADER] == buf[..HEADER];
    sent := SendPackages(buf, most, nPackages);
  }

  method SendPackages(buf: array<byte>, most: nat, nPackages: nat) returns (sent: seq<seq<byte>>)
    requires 0 < most && nPackages == PackageCount(buf.Length, most)
    ensures sent == Packages(buf[..], most)
  {
    sent := [];
    var part: nat := 0;
    assert buf[..][0..] == buf[..];
    for i := 0 to nPackages - 1
      invariant Sending(buf[..], most, part, nPackages - i, sent)
    {
      SendFull(buf[..], most, part, nPackages - i, sent);
      assert buf[..][part..part + most] == buf[part..part + most];
      sent := sent + [buf[part..part + most]];
      part := part + most;
    }
    SendLast(buf[..], most, part, sent);
    var partCount := SizeOfLast(buf.Length, most);
    assert buf[..][part..part + partCount] == buf[part..part + partCount];
    sent := sent + [buf[part..part + partCount]];
  }

  method WriteHeader(buf: array<byte>, nPackages: nat)
    requires HEADER <= buf.Length
    modifies buf
    ensures buf[..HEADER] == Encode(nPackages, HEADER) && buf[HEADER..] == old(buf[HEADER..])
  {
    var header := Encode(nPackages, HEADER);
    for k := 0 to HEADER
      invariant buf[..k] == header[..k] && buf[HEADER..] == old(buf[HEADER..])
    {
      buf[k] := header[k];
    }
  }

  datatype Status = Success | TruncateError | NoMessage

  /** Receives the next package into a part of the buffer. */
  method ReceivePackage(buf: array<byte>, at: nat, size: nat, packages: seq<seq<byte>>)
          returns (status: Status, pending: seq<seq<byte>>)
    requires at + size <= buf.Length
    modifies buf
    ensures packages == [] ==> status == NoMessage
    ensures packages != [] && |packages[0]| > size ==> status == TruncateError
    ensures packages != [] && |packages[0]| <= size ==>
      status == Success && pending == packages[1..] && buf[..] == Written(old(buf[..]), at, packages[0])
  {
    pending := packages;
    if packages == [] { return NoMessage, pending; }
    var package := packages[0];
    if |package| > size { return TruncateError, pending; }
    for k := 0 to |package|
      invariant forall j {:trigger buf[j]} :: 0 <= j < buf.Length ==>
                buf[j] == if at <= j < at + k then package[j - at] else old(buf[j])
    {
      buf[at + k] := package[k];
    }
    status, pending := Success, packages[1..];
  }

  /** MPI_Recv_Big: receives the first package, and after it as many more as its header says. */
  method RecvBig(buf: array<byte>, packages: seq<seq<byte>>, most: nat)
          returns (status: Status, pending: seq<seq<byte>>)
    requires HEADER <= buf.Length && 0 < most
    modifies buf
    ensures Ended(Receive(old(buf[..]), packages, most), status, buf[..], pending)
  {
    var firstSize := Min(most, buf.Length);
    status, pending := ReceivePackage(buf, 0, firstSize, packages);
    if status != Success { return; }
    var nPackages := Decode(buf[..HEADER]);
    status, pending := RecvRest(buf, firstSize, StillToCome(nPackages), pending, most);
  }

  /** The loop that receives the packages after the first. */
  method RecvRest(buf: array<byte>, start: nat, count: nat, packages: seq<seq<byte>>, most: nat)
          returns (status: Status, pending: seq<seq<byte>>)
    requires start <= buf.Length && 0 < most
    modifies buf
    ensures Ended(ReceiveFrom(old(buf[..]), start, count, packages, most), status, buf[..], pending)
  {
    var at: nat, left: nat, toCome: nat := start, buf.Length - start, count;
    pending := packages;
    ghost var outcome := ReceiveFrom(buf[..], start, count, packages, most);
    while toCome != 0
      invariant at + left == buf.Length && outcome == ReceiveFrom(buf[..], at, toCome, pending, most)
    {
      var partSize := Min(most, left);
      status, pending := ReceivePackage(buf, at, partSize, pending);
      if status != Success { return; }
      at, left := at + partSize, left - partSize;
      toCome := toCome - 1;
    }
    status := Success;
  }

  /** How the outcome of receiving shows in the buffer and the returned status. */
  ghost predicate Ended(outcome: Outcome, status: Status, buffer: seq<byte>, pending: seq<seq<byte>>) {
    match outcome
    case Received(b, p) => status == Success && buffer == b && pending == p
    case Truncated => status == TruncateError
    case Waiting => status == NoMessage
  }
}
