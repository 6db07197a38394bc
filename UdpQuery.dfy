/**
 * The UDP query of QueryMaster's game-server client: one request datagram
 * is sent and the response is rebuilt from one datagram (header -1) or from
 * several numbered fragments (header -2) in the GoldSource or the Source
 * layout, the Source one optionally bzip2-compressed and CRC32-checked.
 *
 * The socket is a sequence of arrivals: each receive consumes the next one,
 * and an exhausted sequence is the receive timeout. Bzip2 and CRC32 are
 * foreign code and are given to the query object as functions.
 */
module UdpQuery {
  import opened Wrappers
  import opened ByteCursor

  const SinglePacket: int := -1
  const MultiPacket: int := -2

  /** Offsets of the fragment layouts. */
  const GoldSourceFirstPayload: nat := 13
  const GoldSourceLaterPayload: nat := 9
  const SourcePlainPayload: nat := 12
  const SourceCompressedPayload: nat := 18
  const SourceLaterPayload: nat := 12

  /** `EngineType`; a value outside the two named ones is what the source rejects. */
  datatype EngineType = Source | GoldSource | Unrecognised(code: int)

  /** What one call of `ReceiveData` sees, unless the arrivals are exhausted (the timeout). */
  datatype Arrival = Datagram(bytes: seq<Byte>) | SocketFault

  /** The exceptions the query can end with. */
  datatype ErrorKind =
    | Timeout               // SocketException with SocketError.TimedOut
    | SocketFailure         // any other SocketException
    | HeaderTooShort        // BitConverter.ToInt32 on fewer than 4 bytes
    | IndexOutOfRange       // data[8] or data[9] on a datagram too short
    | ParseFailure          // the Parser reading or skipping past the end
    | InvalidHeader         // InvalidHeaderException
    | InvalidEngineType     // ArgumentException for an unknown EngineType
    | DecompressionFailure  // a malformed bzip2 stream
    | InvalidChecksum       // InvalidPacketException

  /** A failure of `GetResponse`, with the "ReceivedData" the source attaches when it has it. */
  datatype QueryError = QueryError(kind: ErrorKind, receivedData: Option<seq<Byte>>)

  /** One entry of `pktList`: the declared fragment index and the whole datagram. */
  datatype Fragment = Fragment(index: int, bytes: seq<Byte>)

  /** The effect of a whole query: its result, the arrivals left unread, and whether `Dispose` ran. */
  datatype Outcome = Outcome(result: Result<seq<Byte>, QueryError>, remaining: seq<Arrival>, disposed: bool)

  // ---------------------------------------------------------------------------
  // Receiving

  /** One `ReceiveData` call against the arrivals still pending. */
  function Receive(incoming: seq<Arrival>): (Result<seq<Byte>, ErrorKind>, seq<Arrival>)
  {
    if incoming == [] then (Failure(Timeout), [])
    else match incoming[0]
      case Datagram(b) => (Success(b), incoming[1..])
      case SocketFault => (Failure(SocketFailure), incoming[1..])
  }

  /** Datagram arrivals carrying the given byte sequences, in order. */
  function Datagrams(ds: seq<seq<Byte>>): (a: seq<Arrival>)
    ensures |a| == |ds|
    ensures forall i :: 0 <= i < |ds| ==> a[i] == Datagram(ds[i])
  {
    if ds == [] then [] else [Datagram(ds[0])] + Datagrams(ds[1..])
  }

  /** All byte sequences joined in order. */
  function Flatten(ds: seq<seq<Byte>>): seq<Byte>
  {
    if ds == [] then [] else ds[0] + Flatten(ds[1..])
  }

  /**
   * The `isMultiPacket` pre-collection: append every datagram to `data` until
   * the timeout, which ends it normally; any other socket error ends the query.
   */
  function PreCollect(data: seq<Byte>, incoming: seq<Arrival>): (Result<seq<Byte>, ErrorKind>, seq<Arrival>)
    decreases |incoming|
  {
    if incoming == [] then (Success(data), [])
    else match incoming[0]
      case Datagram(b) => PreCollect(data + b, incoming[1..])
      case SocketFault => (Failure(SocketFailure), incoming[1..])
  }

  lemma {:induction false} PreCollectConcatenates(data: seq<Byte>, ds: seq<seq<Byte>>)
    ensures PreCollect(data, Datagrams(ds)) == (Success(data + Flatten(ds)), [])
    decreases |ds|
  {
    if ds != [] {
      assert Datagrams(ds)[0] == Datagram(ds[0]);
      assert Datagrams(ds)[1..] == Datagrams(ds[1..]);
      assert PreCollect(data, Datagrams(ds)) == PreCollect(data + ds[0], Datagrams(ds[1..]));
      PreCollectConcatenates(data + ds[0], ds[1..]);
      assert data + ds[0] + Flatten(ds[1..]) == data + Flatten(ds);
    } else {
      assert data + Flatten(ds) == data;
    }
  }

  lemma {:induction false} PreCollectFaultPropagates(data: seq<Byte>, ds: seq<seq<Byte>>, rest: seq<Arrival>)
    ensures PreCollect(data, Datagrams(ds) + [SocketFault] + rest) == (Failure(SocketFailure), rest)
    decreases |ds|
  {
    if ds == [] {
      assert (Datagrams(ds) + [SocketFault] + rest)[1..] == rest;
    } else {
      var a := Datagrams(ds) + [SocketFault] + rest;
      assert a[0] == Datagram(ds[0]);
      assert a[1..] == Datagrams(ds[1..]) + [SocketFault] + rest;
      PreCollectFaultPropagates(data + ds[0], ds[1..], rest);
    }
  }

  // ---------------------------------------------------------------------------
  // Fragment headers

  /** Where each dialect keeps the fragment index: byte 8 (GoldSource) or byte 9 (Source). */
  function IndexOffset(dialect: EngineType): nat
    requires dialect.Source? || dialect.GoldSource?
  {
    if dialect.GoldSource? then 8 else 9
  }

  /** The declared fragment index: the high nibble of byte 8 (GoldSource) or byte 9 (Source). */
  function FragmentIndex(dialect: EngineType, d: seq<Byte>): (i: int)
    requires dialect.Source? || dialect.GoldSource?
    requires |d| > IndexOffset(dialect)
    ensures dialect.GoldSource? ==> 0 <= i < 16
    ensures dialect.Source? ==> 0 <= i < 256
  {
    if dialect.GoldSource? then d[8] / 16 else d[9]
  }

  /** The declared fragment count: the low nibble of byte 8 (GoldSource) or byte 8 (Source). */
  function FragmentCount(dialect: EngineType, d: seq<Byte>): (n: nat)
    requires dialect.Source? || dialect.GoldSource?
    requires |d| > 8
    ensures dialect.GoldSource? ==> n < 16
    ensures dialect.Source? ==> n < 256
  {
    if dialect.GoldSource? then d[8] % 16 else d[8]
  }

  /** GoldSource packs index and count into one byte: index in the high nibble, count in the low one. */
  lemma GoldSourceNibbles(d: seq<Byte>)
    requires |d| > 8
    ensures d[8] == 16 * FragmentIndex(GoldSource, d) + FragmentCount(GoldSource, d)
  {
  }

  /** `xs` put before a successful collection; a failure passes through. */
  function Prepend(xs: seq<Fragment>, c: (Result<seq<Fragment>, ErrorKind>, seq<Arrival>)): (Result<seq<Fragment>, ErrorKind>, seq<Arrival>)
  {
    (if c.0.Failure? then c.0 else Success(xs + c.0.value), c.1)
  }

  /**
   * The dialect loop `for (i = 1; i < pktCount; i++)`: `n` further receives,
   * each datagram keyed by the index it declares, in arrival order.
   */
  function CollectFragments(dialect: EngineType, incoming: seq<Arrival>, n: nat): (c: (Result<seq<Fragment>, ErrorKind>, seq<Arrival>))
    requires dialect.Source? || dialect.GoldSource?
    ensures c.0.Success? ==> n <= |incoming| && c.1 == incoming[n..] && |c.0.value| == n
    ensures c.0.Success? ==> forall k :: 0 <= k < n ==> incoming[k] == Datagram(c.0.value[k].bytes)
    ensures |incoming| < n ==> c.0.Failure?
    decreases n
  {
    if n == 0 then (Success([]), incoming)
    else
      var (head, rest) := Receive(incoming);
      if head.Failure? then (Failure(head.error), rest)
      else if |head.value| <= IndexOffset(dialect) then (Failure(IndexOutOfRange), rest)
      else Prepend([Fragment(FragmentIndex(dialect, head.value), head.value)], CollectFragments(dialect, rest, n - 1))
  }

  /** Asking for even one fragment more than has arrived ends in the timeout. */
  lemma {:induction false} CollectTimesOut(dialect: EngineType, ds: seq<seq<Byte>>, n: nat)
    requires dialect.Source? || dialect.GoldSource?
    requires |ds| < n
    requires forall k :: 0 <= k < |ds| ==> |ds[k]| > IndexOffset(dialect)
    ensures CollectFragments(dialect, Datagrams(ds), n).0 == Failure(Timeout)
    decreases n
  {
    if ds != [] {
      assert Datagrams(ds)[1..] == Datagrams(ds[1..]);
      CollectTimesOut(dialect, ds[1..], n - 1);
    }
  }

  // ---------------------------------------------------------------------------
  // Ordering (`pktList.Sort` by key)

  ghost predicate SortedByIndex(s: seq<Fragment>)
  {
    forall i, j :: 0 <= i < j < |s| ==> s[i].index <= s[j].index
  }

  /** Every declared index names one fragment only. */
  ghost predicate IndexDetermines(m: multiset<Fragment>)
  {
    forall f, g :: f in m && g in m && f.index == g.index ==> f == g
  }

  /** Puts `f` after every element of a sorted list whose index is not greater. */
  function InsertByIndex(f: Fragment, s: seq<Fragment>): (r: seq<Fragment>)
    ensures |r| == |s| + 1
    ensures multiset(r) == multiset(s) + multiset{f}
  {
    if s == [] || f.index < s[0].index then [f] + s
    else
      var r := [s[0]] + InsertByIndex(f, s[1..]);
      assert s == [s[0]] + s[1..];
      r
  }

  /** The tail of an index-sorted list is index-sorted. */
  lemma SortedTail(s: seq<Fragment>)
    requires SortedByIndex(s) && |s| >= 1
    ensures SortedByIndex(s[1..])
  {
    forall i, j | 0 <= i < j < |s| - 1 ensures s[1..][i].index <= s[1..][j].index {
      assert s[1..][i] == s[i + 1] && s[1..][j] == s[j + 1];
    }
  }

  /** A fragment with an index no greater than any of a sorted list's can go in front of it. */
  lemma SortedCons(h: Fragment, tail: seq<Fragment>)
    requires SortedByIndex(tail)
    requires forall x :: x in tail ==> h.index <= x.index
    ensures SortedByIndex([h] + tail)
  {
    var r := [h] + tail;
    forall i, j | 0 <= i < j < |r| ensures r[i].index <= r[j].index {
      assert r[j] == tail[j - 1];
      if i > 0 {
        assert r[i] == tail[i - 1];
      }
    }
  }

  /** Inserting past the head of a sorted list leaves the head least. */
  lemma HeadBoundsInsertion(f: Fragment, s: seq<Fragment>)
    requires SortedByIndex(s) && |s| >= 1 && f.index >= s[0].index
    ensures forall x :: x in InsertByIndex(f, s[1..]) ==> s[0].index <= x.index
  {
    var tail := InsertByIndex(f, s[1..]);
    forall x | x in tail ensures s[0].index <= x.index {
      assert x in multiset(tail);
      if x != f {
        assert x in multiset(s[1..]);
        var k :| 0 <= k < |s[1..]| && s[1..][k] == x;
        assert s[k + 1] == x;
      }
    }
  }

  lemma {:induction false} InsertKeepsSorted(f: Fragment, s: seq<Fragment>)
    requires SortedByIndex(s)
    ensures SortedByIndex(InsertByIndex(f, s))
    decreases |s|
  {
    if s != [] && f.index >= s[0].index {
      SortedTail(s);
      InsertKeepsSorted(f, s[1..]);
      HeadBoundsInsertion(f, s);
      SortedCons(s[0], InsertByIndex(f, s[1..]));
    }
  }

  lemma SnocMultiset(s: seq<Fragment>)
    requires |s| >= 1
    ensures multiset(s) == multiset(s[..|s| - 1]) + multiset{s[|s| - 1]}
  {
    assert s == s[..|s| - 1] + [s[|s| - 1]];
  }

  /**
   * The list ordered ascending by declared index. `List.Sort` does not fix the
   * order of equal indices; this one keeps arrival order among them.
   */
  function SortByIndex(s: seq<Fragment>): (r: seq<Fragment>)
    ensures |r| == |s|
    ensures multiset(r) == multiset(s)
    ensures SortedByIndex(r)
  {
    if s == [] then []
    else
      var sortedFront := SortByIndex(s[..|s| - 1]);
      InsertKeepsSorted(s[|s| - 1], sortedFront);
      SnocMultiset(s);
      InsertByIndex(s[|s| - 1], sortedFront)
  }

  /** The first element of an index-sorted list has the least index of all its elements. */
  lemma SortedHeadIsLeast(s: seq<Fragment>, x: Fragment)
    requires SortedByIndex(s) && |s| >= 1
    requires x in multiset(s)
    ensures s[0].index <= x.index
  {
    var k :| 0 <= k < |s| && s[k] == x;
  }

  lemma IndexDeterminesSubset(m: multiset<Fragment>, m': multiset<Fragment>)
    requires IndexDetermines(m) && m' <= m
    ensures IndexDetermines(m')
  {
  }

  /** Sorted lists of the same fragments start with the same one when indices identify fragments. */
  lemma SortedHeadsAgree(s: seq<Fragment>, t: seq<Fragment>)
    requires SortedByIndex(s) && SortedByIndex(t) && |s| >= 1 && |t| >= 1
    requires multiset(s) == multiset(t)
    requires IndexDetermines(multiset(s))
    ensures s[0] == t[0]
  {
    assert s[0] in multiset(s) && t[0] in multiset(t);
    SortedHeadIsLeast(t, s[0]);
    SortedHeadIsLeast(s, t[0]);
  }

  lemma TailMultiset(s: seq<Fragment>)
    requires |s| >= 1
    ensures multiset(s[1..]) == multiset(s) - multiset{s[0]}
    ensures multiset(s[1..]) <= multiset(s)
  {
    assert s == [s[0]] + s[1..];
  }

  /** Removing an equal head from both lists keeps all the hypotheses for their tails. */
  lemma TailsKeepHypotheses(s: seq<Fragment>, t: seq<Fragment>)
    requires SortedByIndex(s) && SortedByIndex(t) && |s| >= 1 && |t| >= 1
    requires multiset(s) == multiset(t) && s[0] == t[0]
    requires IndexDetermines(multiset(s))
    ensures SortedByIndex(s[1..]) && SortedByIndex(t[1..])
    ensures multiset(s[1..]) == multiset(t[1..])
    ensures IndexDetermines(multiset(s[1..]))
  {
    SortedTail(s);
    SortedTail(t);
    TailMultiset(s);
    TailMultiset(t);
    IndexDeterminesSubset(multiset(s), multiset(s[1..]));
  }

  lemma PermutationLength(s: seq<Fragment>, t: seq<Fragment>)
    requires multiset(s) == multiset(t)
    ensures |s| == |t|
  {
    assert |multiset(s)| == |multiset(t)|;
  }

  lemma HeadAndTailDetermine(s: seq<Fragment>, t: seq<Fragment>)
    requires |s| >= 1 && |t| >= 1 && s[0] == t[0] && s[1..] == t[1..]
    ensures s == t
  {
    assert s == [s[0]] + s[1..] && t == [t[0]] + t[1..];
  }

  /** Two index-sorted lists of the same fragments are the same list when indices identify fragments. */
  lemma {:induction false} SortedPermutationsAgree(s: seq<Fragment>, t: seq<Fragment>)
    requires SortedByIndex(s) && SortedByIndex(t)
    requires multiset(s) == multiset(t)
    requires IndexDetermines(multiset(s))
    ensures s == t
    decreases |s|
  {
    PermutationLength(s, t);
    if s != [] {
      SortedHeadsAgree(s, t);
      TailsKeepHypotheses(s, t);
      SortedPermutationsAgree(s[1..], t[1..]);
      HeadAndTailDetermine(s, t);
    }
  }

  /** Arrival order does not matter: the same fragments in any order sort to the same list. */
  lemma SortIgnoresArrivalOrder(a: seq<Fragment>, b: seq<Fragment>)
    requires multiset(a) == multiset(b)
    requires IndexDetermines(multiset(a))
    ensures SortByIndex(a) == SortByIndex(b)
  {
    SortedPermutationsAgree(SortByIndex(a), SortByIndex(b));
  }

  // ---------------------------------------------------------------------------
  // GoldSource

  /** The payloads of `frags` from offset `n` each, in list order. */
  function ConcatFrom(frags: seq<Fragment>, n: nat): seq<Byte>
  {
    if frags == [] then [] else ConcatFrom(frags[..|frags| - 1], n) + Skip(frags[|frags| - 1].bytes, n)
  }

  /** Taking one more fragment appends its payload. */
  lemma ConcatFromExtends(frags: seq<Fragment>, i: nat, n: nat)
    requires 1 <= i < |frags|
    ensures ConcatFrom(frags[1..i + 1], n) == ConcatFrom(frags[1..i], n) + Skip(frags[i].bytes, n)
  {
    var done := frags[1..i + 1];
    assert done[..|done| - 1] == frags[1..i];
  }

  /** The GoldSource concatenation of an index-sorted list: the first from offset 13, the rest from 9. */
  function GoldSourceJoin(sorted: seq<Fragment>): seq<Byte>
    requires |sorted| >= 1
  {
    Skip(sorted[0].bytes, GoldSourceFirstPayload) + ConcatFrom(sorted[1..], GoldSourceLaterPayload)
  }

  /** `GoldSourcePackets` on the first datagram `data`, with the rest still to arrive. */
  function GoldSourcePacketsSpec(data: seq<Byte>, incoming: seq<Arrival>): (Result<seq<Byte>, ErrorKind>, seq<Arrival>)
  {
    if |data| <= 8 then (Failure(IndexOutOfRange), incoming)
    else
      var count := FragmentCount(GoldSource, data);
      var (more, rest) := CollectFragments(GoldSource, incoming, if count >= 1 then count - 1 else 0);
      if more.Failure? then (Failure(more.error), rest)
      else (Success(GoldSourceJoin(SortByIndex([Fragment(FragmentIndex(GoldSource, data), data)] + more.value))), rest)
  }

  /** GoldSource reassembly depends on which fragments arrived, not on the order they arrived in. */
  lemma GoldSourceIgnoresArrivalOrder(a: seq<Fragment>, b: seq<Fragment>)
    requires |a| >= 1
    requires multiset(a) == multiset(b)
    requires IndexDetermines(multiset(a))
    ensures |b| >= 1
    ensures GoldSourceJoin(SortByIndex(a)) == GoldSourceJoin(SortByIndex(b))
  {
    assert |multiset(b)| == |a|;
    SortIgnoresArrivalOrder(a, b);
  }

  /** The lowest-index fragment is the one placed first, whatever the arrival order. */
  lemma LowestIndexFirst(s: seq<Fragment>)
    requires |s| >= 1
    ensures SortByIndex(s)[0] in s
    ensures forall f :: f in s ==> SortByIndex(s)[0].index <= f.index
  {
    var r := SortByIndex(s);
    assert r[0] in multiset(s);
    forall f | f in s ensures r[0].index <= f.index {
      assert f in multiset(r);
      var k :| 0 <= k < |r| && r[k] == f;
    }
  }

  /**
   * A GoldSource response declaring `count >= 1` fragments reads exactly
   * `count - 1` more datagrams and joins them with the first one; the result
   * keeps whatever header bytes lie past offset 13, none is stripped.
   */
  lemma GoldSourceReadsDeclaredCount(data: seq<Byte>, ds: seq<seq<Byte>>, rest: seq<Arrival>)
    requires |data| > 8 && FragmentCount(GoldSource, data) >= 1
    requires |ds| == FragmentCount(GoldSource, data) - 1
    requires forall k :: 0 <= k < |ds| ==> |ds[k]| > 8
    ensures GoldSourcePacketsSpec(data, Datagrams(ds) + rest) ==
      (Success(GoldSourceJoin(SortByIndex([Fragment(FragmentIndex(GoldSource, data), data)] + FragmentsOf(GoldSource, ds)))), rest)
  {
    CollectReadsExactly(GoldSource, ds, rest);
  }

  /** The fragments the given datagrams declare, in arrival order. */
  function FragmentsOf(dialect: EngineType, ds: seq<seq<Byte>>): (fs: seq<Fragment>)
    requires dialect.Source? || dialect.GoldSource?
    requires forall k :: 0 <= k < |ds| ==> |ds[k]| > IndexOffset(dialect)
    ensures |fs| == |ds|
  {
    if ds == [] then [] else [Fragment(FragmentIndex(dialect, ds[0]), ds[0])] + FragmentsOf(dialect, ds[1..])
  }

  /** Collecting `|ds|` fragments from datagrams `ds` followed by anything reads exactly `ds`. */
  lemma {:induction false} CollectReadsExactly(dialect: EngineType, ds: seq<seq<Byte>>, rest: seq<Arrival>)
    requires dialect.Source? || dialect.GoldSource?
    requires forall k :: 0 <= k < |ds| ==> |ds[k]| > IndexOffset(dialect)
    ensures CollectFragments(dialect, Datagrams(ds) + rest, |ds|) == (Success(FragmentsOf(dialect, ds)), rest)
    decreases |ds|
  {
    if ds != [] {
      assert (Datagrams(ds) + rest)[0] == Datagram(ds[0]);
      assert (Datagrams(ds) + rest)[1..] == Datagrams(ds[1..]) + rest;
      CollectReadsExactly(dialect, ds[1..], rest);
    }
  }

  /** `f` is the fragment its own bytes declare. */
  predicate SelfDeclared(dialect: EngineType, f: Fragment)
    requires dialect.Source? || dialect.GoldSource?
  {
    |f.bytes| > IndexOffset(dialect) && f.index == FragmentIndex(dialect, f.bytes)
  }

  lemma MultisetHeadCount<T>(s: seq<T>, x: T)
    requires s != []
    ensures multiset(s)[x] == (if s[0] == x then 1 else 0) + multiset(s[1..])[x]
  {
    assert s == [s[0]] + s[1..];
  }

  /** How often a fragment occurs among the fragments of `ds`: as often as its bytes occur, if it is the fragment those bytes declare. */
  lemma {:induction false} FragmentsOfCount(dialect: EngineType, ds: seq<seq<Byte>>, f: Fragment)
    requires dialect.Source? || dialect.GoldSource?
    requires forall k :: 0 <= k < |ds| ==> |ds[k]| > IndexOffset(dialect)
    ensures multiset(FragmentsOf(dialect, ds))[f] == if SelfDeclared(dialect, f) then multiset(ds)[f.bytes] else 0
    decreases |ds|
  {
    if ds != [] {
      var fs := FragmentsOf(dialect, ds);
      FragmentsOfCount(dialect, ds[1..], f);
      assert fs[1..] == FragmentsOf(dialect, ds[1..]);
      MultisetHeadCount(fs, f);
      MultisetHeadCount(ds, f.bytes);
    }
  }

  // ---------------------------------------------------------------------------
  // Source

  /** What the Parser learns from the lowest-index Source fragment. */
  datatype SourceHeader = SourceHeader(compressed: bool, checksum: int, payloadOffset: nat)

  /**
   * The Parser steps on the first sorted Source fragment: skip the 4-byte
   * header, read the int32 ID (negative means compressed), two bytes and a
   * uint16; when compressed skip 2 more bytes and read the int32 checksum.
   */
  function ParseSourceHeader(first: seq<Byte>): (r: Result<SourceHeader, ErrorKind>)
    ensures r.Success? ==> r.value.payloadOffset <= |first|
  {
    if |first| < 12 then Failure(ParseFailure)
    else if Int32LE(first, 4) >= 0 then Success(SourceHeader(false, 0, SourcePlainPayload))
    else if |first| < 18 then Failure(ParseFailure)
    else Success(SourceHeader(true, Int32LE(first, 14), SourceCompressedPayload))
  }

  /**
   * The layout of the first Source fragment: it is compressed exactly when the
   * top bit of byte 7 (the sign of the ID) is set, its payload starts at 12 or
   * at 18, and it is too short exactly when it ends before its payload.
   */
  lemma SourceHeaderLayout(first: seq<Byte>)
    ensures ParseSourceHeader(first).Failure? <==>
      |first| < 12 || (first[7] >= 128 && |first| < 18)
    ensures ParseSourceHeader(first).Success? ==>
      var h := ParseSourceHeader(first).value;
      && (h.compressed <==> first[7] >= 128)
      && h.payloadOffset == (if h.compressed then 18 else 12)
      && (h.compressed ==> h.checksum == Int32LE(first, 14))
  {
    if |first| >= 12 {
      Int32Negative(first, 4);
    }
  }

  /** Each later fragment with its 12-byte header skipped, in list order; a shorter one is a parse failure. */
  function LaterPayloads(frags: seq<Fragment>): Result<seq<Byte>, ErrorKind>
  {
    if frags == [] then Success([])
    else
      var front := LaterPayloads(frags[..|frags| - 1]);
      var last := frags[|frags| - 1].bytes;
      if front.Failure? then front
      else if |last| < SourceLaterPayload then Failure(ParseFailure)
      else Success(front.value + last[SourceLaterPayload..])
  }

  /** A failure on a prefix of the later fragments is a failure of them all. */
  lemma {:induction false} LaterPayloadsPrefixFails(frags: seq<Fragment>, k: nat)
    requires k <= |frags|
    requires LaterPayloads(frags[..k]).Failure?
    ensures LaterPayloads(frags) == LaterPayloads(frags[..k])
    decreases |frags| - k
  {
    if k < |frags| {
      assert frags[..k + 1][..k] == frags[..k];
      assert LaterPayloads(frags[..k + 1]) == LaterPayloads(frags[..k]);
      LaterPayloadsPrefixFails(frags, k + 1);
    } else {
      assert frags[..k] == frags;
    }
  }

  /** The Source concatenation of an index-sorted list, with what the first fragment's header said. */
  function SourceJoin(sorted: seq<Fragment>): Result<(SourceHeader, seq<Byte>), ErrorKind>
    requires |sorted| >= 1
  {
    var hdr := ParseSourceHeader(sorted[0].bytes);
    if hdr.Failure? then Failure(hdr.error)
    else
      var later := LaterPayloads(sorted[1..]);
      if later.Failure? then Failure(later.error)
      else Success((hdr.value, sorted[0].bytes[hdr.value.payloadOffset..] + later.value))
  }

  /** `IsValid`: the checksum read from the header equals the CRC32 of the data. */
  predicate IsValid(data: seq<Byte>, checksum: int, crc32: seq<Byte> -> int): (ok: bool)
    ensures ok ==> crc32(data) == checksum
    ensures crc32(data) == checksum ==> ok
  {
    checksum == crc32(data)
  }

  /** The end of `SourcePackets`: drop the 4-byte header, after decompressing and checking when compressed. */
  function SourceFinish(hdr: SourceHeader, joined: seq<Byte>, decompress: seq<Byte> -> Option<seq<Byte>>, crc32: seq<Byte> -> int): Result<seq<Byte>, ErrorKind>
  {
    if !hdr.compressed then Success(Skip(joined, 4))
    else match decompress(joined)
      case None => Failure(DecompressionFailure)
      case Some(plain) =>
        if !IsValid(plain, hdr.checksum, crc32) then Failure(InvalidChecksum)
        else Success(Skip(plain, 4))
  }

  /** The Source result from the index-sorted fragments. */
  function SourceAssemble(sorted: seq<Fragment>, decompress: seq<Byte> -> Option<seq<Byte>>, crc32: seq<Byte> -> int): Result<seq<Byte>, ErrorKind>
    requires |sorted| >= 1
  {
    var joined := SourceJoin(sorted);
    if joined.Failure? then Failure(joined.error)
    else SourceFinish(joined.value.0, joined.value.1, decompress, crc32)
  }

  /** `SourcePackets` on the first datagram `data`, with the rest still to arrive. */
  function SourcePacketsSpec(data: seq<Byte>, incoming: seq<Arrival>, decompress: seq<Byte> -> Option<seq<Byte>>, crc32: seq<Byte> -> int): (Result<seq<Byte>, ErrorKind>, seq<Arrival>)
  {
    if |data| <= 9 then (Failure(IndexOutOfRange), incoming)
    else
      var count := FragmentCount(Source, data);
      var (more, rest) := CollectFragments(Source, incoming, if count >= 1 then count - 1 else 0);
      if more.Failure? then (Failure(more.error), rest)
      else (SourceAssemble(SortByIndex([Fragment(FragmentIndex(Source, data), data)] + more.value), decompress, crc32), rest)
  }

  /** A Source response declaring `count >= 1` fragments reads exactly `count - 1` more datagrams. */
  lemma SourceReadsDeclaredCount(data: seq<Byte>, ds: seq<seq<Byte>>, rest: seq<Arrival>, decompress: seq<Byte> -> Option<seq<Byte>>, crc32: seq<Byte> -> int)
    requires |data| > 9 && FragmentCount(Source, data) >= 1
    requires |ds| == FragmentCount(Source, data) - 1
    requires forall k :: 0 <= k < |ds| ==> |ds[k]| > 9
    ensures SourcePacketsSpec(data, Datagrams(ds) + rest, decompress, crc32) ==
      (SourceAssemble(SortByIndex([Fragment(FragmentIndex(Source, data), data)] + FragmentsOf(Source, ds)), decompress, crc32), rest)
  {
    CollectReadsExactly(Source, ds, rest);
  }

  /** An uncompressed Source response is the concatenation with its first 4 bytes dropped. */
  lemma SourceUncompressedResult(hdr: SourceHeader, joined: seq<Byte>, decompress: seq<Byte> -> Option<seq<Byte>>, crc32: seq<Byte> -> int)
    requires !hdr.compressed && |joined| >= 4
    ensures SourceFinish(hdr, joined, decompress, crc32) == Success(joined[4..])
  {
  }

  /**
   * A compressed Source response is never returned unless the CRC32 of the
   * decompressed data equals the checksum from the header; a mismatch is
   * always `InvalidChecksum`.
   */
  lemma SourceChecksumGuards(hdr: SourceHeader, joined: seq<Byte>, decompress: seq<Byte> -> Option<seq<Byte>>, crc32: seq<Byte> -> int)
    requires hdr.compressed
    ensures SourceFinish(hdr, joined, decompress, crc32).Success? <==>
      decompress(joined).Some? && crc32(decompress(joined).value) == hdr.checksum
    ensures decompress(joined).Some? && crc32(decompress(joined).value) != hdr.checksum ==>
      SourceFinish(hdr, joined, decompress, crc32) == Failure(InvalidChecksum)
    ensures SourceFinish(hdr, joined, decompress, crc32).Success? ==>
      SourceFinish(hdr, joined, decompress, crc32).value == Skip(decompress(joined).value, 4)
  {
  }

  // ---------------------------------------------------------------------------
  // The whole query

  /** `ParseSinglePkt`: the datagram without its 4-byte header. */
  function ParseSinglePkt(data: seq<Byte>): (payload: seq<Byte>)
    ensures |data| >= 4 ==> data == data[..4] + payload
    ensures |data| < 4 ==> payload == []
  {
    Skip(data, 4)
  }

  /** `ParseMultiPkt`: the handler of the configured engine, or `ArgumentException`. */
  function ParseMultiPktSpec(engine: EngineType, data: seq<Byte>, incoming: seq<Arrival>, decompress: seq<Byte> -> Option<seq<Byte>>, crc32: seq<Byte> -> int): (Result<seq<Byte>, ErrorKind>, seq<Arrival>)
  {
    match engine
    case Source => SourcePacketsSpec(data, incoming, decompress, crc32)
    case GoldSource => GoldSourcePacketsSpec(data, incoming)
    case Unrecognised(_) => (Failure(InvalidEngineType), incoming)
  }

  /**
   * The `try` block of `GetResponse`: classify by the int32 at offset 0; any
   * failure carries the classified buffer and disposes of the socket.
   */
  function Classify(engine: EngineType, recvData: seq<Byte>, incoming: seq<Arrival>, decompress: seq<Byte> -> Option<seq<Byte>>, crc32: seq<Byte> -> int): Outcome
  {
    if |recvData| < 4 then Outcome(Failure(QueryError(HeaderTooShort, Some(recvData))), incoming, true)
    else
      var header := Int32LE(recvData, 0);
      if header == SinglePacket then Outcome(Success(ParseSinglePkt(recvData)), incoming, false)
      else if header == MultiPacket then
        var (r, rest) := ParseMultiPktSpec(engine, recvData, incoming, decompress, crc32);
        if r.Failure? then Outcome(Failure(QueryError(r.error, Some(recvData))), rest, true)
        else Outcome(Success(r.value), rest, false)
      else Outcome(Failure(QueryError(InvalidHeader, Some(recvData))), incoming, true)
  }

  /** `GetResponse` after the request has been sent, against the arrivals that follow it. */
  function ResponseSpec(engine: EngineType, isMultiPacket: bool, incoming: seq<Arrival>, decompress: seq<Byte> -> Option<seq<Byte>>, crc32: seq<Byte> -> int): Outcome
  {
    var (first, rest) := Receive(incoming);
    if first.Failure? then Outcome(Failure(QueryError(first.error, None)), rest, false)
    else if !isMultiPacket then Classify(engine, first.value, rest, decompress, crc32)
    else
      var (buffer, rest') := PreCollect(first.value, rest);
      if buffer.Failure? then Outcome(Failure(QueryError(buffer.error, None)), rest', true)
      else Classify(engine, buffer.value, rest', decompress, crc32)
  }

  /** A single-packet response is exactly the datagram minus its 4-byte header, and nothing more is read. */
  lemma SinglePacketResponse(engine: EngineType, d: seq<Byte>, rest: seq<Arrival>, decompress: seq<Byte> -> Option<seq<Byte>>, crc32: seq<Byte> -> int)
    requires |d| >= 4 && d[..4] == [255, 255, 255, 255]
    ensures ResponseSpec(engine, false, [Datagram(d)] + rest, decompress, crc32) == Outcome(Success(d[4..]), rest, false)
  {
    Int32MinusOne(d, 0);
    assert ([Datagram(d)] + rest)[1..] == rest;
  }

  /** A header other than -1 and -2 is an `InvalidHeaderException`, never a result. */
  lemma InvalidHeaderRejected(engine: EngineType, isMultiPacket: bool, d: seq<Byte>, ds: seq<seq<Byte>>, decompress: seq<Byte> -> Option<seq<Byte>>, crc32: seq<Byte> -> int)
    requires !isMultiPacket ==> ds == []
    requires var buffer := d + Flatten(ds);
      |buffer| >= 4 && Int32LE(buffer, 0) != SinglePacket && Int32LE(buffer, 0) != MultiPacket
    ensures ResponseSpec(engine, isMultiPacket, Datagrams([d] + ds), decompress, crc32) ==
      Outcome(Failure(QueryError(InvalidHeader, Some(d + Flatten(ds)))), [], true)
  {
    assert Datagrams([d] + ds)[0] == Datagram(d);
    assert Datagrams([d] + ds)[1..] == Datagrams(ds);
    if isMultiPacket {
      PreCollectConcatenates(d, ds);
    } else {
      assert d + Flatten(ds) == d;
    }
  }

  /** A multi-packet header with an engine other than Source and GoldSource is an `ArgumentException`. */
  lemma UnrecognisedEngineRejected(code: int, d: seq<Byte>, rest: seq<Arrival>, decompress: seq<Byte> -> Option<seq<Byte>>, crc32: seq<Byte> -> int)
    requires |d| >= 4 && d[..4] == [254, 255, 255, 255]
    ensures ResponseSpec(Unrecognised(code), false, [Datagram(d)] + rest, decompress, crc32) ==
      Outcome(Failure(QueryError(InvalidEngineType, Some(d))), rest, true)
  {
    Int32MinusTwo(d, 0);
    assert ([Datagram(d)] + rest)[1..] == rest;
  }

  /**
   * With `isMultiPacket`, every datagram up to the timeout is concatenated in
   * arrival order before classification, so a multi-packet response whose
   * first fragment declares two or more fragments then finds no datagram left
   * for the dialect loop and always ends in the timeout.
   */
  lemma PreCollectionStarvesFragmentLoop(dialect: EngineType, d: seq<Byte>, ds: seq<seq<Byte>>, decompress: seq<Byte> -> Option<seq<Byte>>, crc32: seq<Byte> -> int)
    requires dialect.Source? || dialect.GoldSource?
    requires |d| > IndexOffset(dialect) && d[..4] == [254, 255, 255, 255]
    requires FragmentCount(dialect, d) >= 2
    ensures ResponseSpec(dialect, true, Datagrams([d] + ds), decompress, crc32) ==
      Outcome(Failure(QueryError(Timeout, Some(d + Flatten(ds)))), [], true)
  {
    var all := [d] + ds;
    assert Datagrams(all)[0] == Datagram(d);
    assert Datagrams(all)[1..] == Datagrams(ds);
    PreCollectConcatenates(d, ds);
    var buffer := d + Flatten(ds);
    assert buffer[..4] == d[..4];
    Int32MinusTwo(buffer, 0);
    assert buffer[..IndexOffset(dialect) + 1] == d[..IndexOffset(dialect) + 1];
    assert buffer[8] == d[8];
    CollectTimesOut(dialect, [], FragmentCount(dialect, buffer) - 1);
  }

  /** Without `isMultiPacket`, a non-timeout socket error during the pre-collection cannot occur; with it, it ends the query. */
  lemma PreCollectionSocketErrorPropagates(engine: EngineType, d: seq<Byte>, ds: seq<seq<Byte>>, rest: seq<Arrival>, decompress: seq<Byte> -> Option<seq<Byte>>, crc32: seq<Byte> -> int)
    ensures ResponseSpec(engine, true, Datagrams([d] + ds) + [SocketFault] + rest, decompress, crc32) ==
      Outcome(Failure(QueryError(SocketFailure, None)), rest, true)
  {
    var a := Datagrams([d] + ds) + [SocketFault] + rest;
    assert a[0] == Datagram(d);
    assert Datagrams([d] + ds)[1..] == Datagrams(ds);
    assert a[1..] == Datagrams(ds) + [SocketFault] + rest;
    PreCollectFaultPropagates(d, ds, rest);
  }

  /** Permuting the datagrams permutes the fragments they declare. */
  lemma FragmentsOfPermutation(dialect: EngineType, xs: seq<seq<Byte>>, ys: seq<seq<Byte>>)
    requires dialect.Source? || dialect.GoldSource?
    requires forall k :: 0 <= k < |xs| ==> |xs[k]| > IndexOffset(dialect)
    requires forall k :: 0 <= k < |ys| ==> |ys[k]| > IndexOffset(dialect)
    requires multiset(xs) == multiset(ys)
    ensures multiset(FragmentsOf(dialect, xs)) == multiset(FragmentsOf(dialect, ys))
  {
    forall f ensures multiset(FragmentsOf(dialect, xs))[f] == multiset(FragmentsOf(dialect, ys))[f] {
      FragmentsOfCount(dialect, xs, f);
      FragmentsOfCount(dialect, ys, f);
    }
  }

  /** The fragments of a first datagram followed by others. */
  lemma FragmentsOfCons(dialect: EngineType, d: seq<Byte>, ds: seq<seq<Byte>>)
    requires dialect.Source? || dialect.GoldSource?
    requires |d| > IndexOffset(dialect)
    requires forall k :: 0 <= k < |ds| ==> |ds[k]| > IndexOffset(dialect)
    ensures forall k :: 0 <= k < |[d] + ds| ==> |([d] + ds)[k]| > IndexOffset(dialect)
    ensures FragmentsOf(dialect, [d] + ds) == [Fragment(FragmentIndex(dialect, d), d)] + FragmentsOf(dialect, ds)
  {
    assert ([d] + ds)[1..] == ds;
  }

  /** The same datagrams, in whatever arrival order, are keyed into the same fragments. */
  lemma SameDatagramsSameFragments(dialect: EngineType, d: seq<Byte>, ds: seq<seq<Byte>>, d': seq<Byte>, ds': seq<seq<Byte>>)
    requires dialect.Source? || dialect.GoldSource?
    requires |d| > IndexOffset(dialect) && |d'| > IndexOffset(dialect)
    requires forall k :: 0 <= k < |ds| ==> |ds[k]| > IndexOffset(dialect)
    requires forall k :: 0 <= k < |ds'| ==> |ds'[k]| > IndexOffset(dialect)
    requires multiset([d] + ds) == multiset([d'] + ds')
    ensures multiset([Fragment(FragmentIndex(dialect, d), d)] + FragmentsOf(dialect, ds)) ==
            multiset([Fragment(FragmentIndex(dialect, d'), d')] + FragmentsOf(dialect, ds'))
  {
    FragmentsOfCons(dialect, d, ds);
    FragmentsOfCons(dialect, d', ds');
    FragmentsOfPermutation(dialect, [d] + ds, [d'] + ds');
  }

  /** Sorting the fragments of two arrival orders of the same datagrams gives one list. */
  lemma SortedFragmentsAgree(dialect: EngineType, d: seq<Byte>, ds: seq<seq<Byte>>, d': seq<Byte>, ds': seq<seq<Byte>>)
    requires dialect.Source? || dialect.GoldSource?
    requires |d| > IndexOffset(dialect) && |d'| > IndexOffset(dialect)
    requires forall k :: 0 <= k < |ds| ==> |ds[k]| > IndexOffset(dialect)
    requires forall k :: 0 <= k < |ds'| ==> |ds'[k]| > IndexOffset(dialect)
    requires multiset([d] + ds) == multiset([d'] + ds')
    requires IndexDetermines(multiset([Fragment(FragmentIndex(dialect, d), d)] + FragmentsOf(dialect, ds)))
    ensures SortByIndex([Fragment(FragmentIndex(dialect, d), d)] + FragmentsOf(dialect, ds)) ==
            SortByIndex([Fragment(FragmentIndex(dialect, d'), d')] + FragmentsOf(dialect, ds'))
  {
    SameDatagramsSameFragments(dialect, d, ds, d', ds');
    SortIgnoresArrivalOrder([Fragment(FragmentIndex(dialect, d), d)] + FragmentsOf(dialect, ds),
                            [Fragment(FragmentIndex(dialect, d'), d')] + FragmentsOf(dialect, ds'));
  }

  /**
   * Reassembly ignores arrival order: the same datagrams, whichever of them
   * came first, give the same result and leave the same arrivals unread,
   * provided each declared index names one fragment.
   */
  lemma ReassemblyIgnoresArrivalOrder(dialect: EngineType, d: seq<Byte>, ds: seq<seq<Byte>>, d': seq<Byte>, ds': seq<seq<Byte>>, rest: seq<Arrival>, decompress: seq<Byte> -> Option<seq<Byte>>, crc32: seq<Byte> -> int)
    requires dialect.Source? || dialect.GoldSource?
    requires |d| > IndexOffset(dialect) && |d'| > IndexOffset(dialect)
    requires forall k :: 0 <= k < |ds| ==> |ds[k]| > IndexOffset(dialect)
    requires forall k :: 0 <= k < |ds'| ==> |ds'[k]| > IndexOffset(dialect)
    requires multiset([d] + ds) == multiset([d'] + ds')
    requires FragmentCount(dialect, d) == |ds| + 1 && FragmentCount(dialect, d') == |ds| + 1
    requires IndexDetermines(multiset([Fragment(FragmentIndex(dialect, d), d)] + FragmentsOf(dialect, ds)))
    ensures ParseMultiPktSpec(dialect, d, Datagrams(ds) + rest, decompress, crc32) ==
            ParseMultiPktSpec(dialect, d', Datagrams(ds') + rest, decompress, crc32)
  {
    assert |ds'| == |ds| by { assert |multiset([d] + ds)| == |multiset([d'] + ds')|; }
    SortedFragmentsAgree(dialect, d, ds, d', ds');
    if dialect.Source? {
      SourceReadsDeclaredCount(d, ds, rest, decompress, crc32);
      SourceReadsDeclaredCount(d', ds', rest, decompress, crc32);
    } else {
      GoldSourceReadsDeclaredCount(d, ds, rest);
      GoldSourceReadsDeclaredCount(d', ds', rest);
    }
  }

  /** Fragment 0 of 2 of a GoldSource response, carrying DE AD from offset 13. */
  const GoldSourceExample0: seq<Byte> := [0xFE, 0xFF, 0xFF, 0xFF, 0, 0, 0, 0, 0x02, 0, 0, 0, 0, 0xDE, 0xAD]
  /** Fragment 1 of 2 of the same response, carrying BE EF from offset 9. */
  const GoldSourceExample1: seq<Byte> := [0xFE, 0xFF, 0xFF, 0xFF, 0, 0, 0, 0, 0x12, 0xBE, 0xEF]

  lemma GoldSourceExampleSorted()
    ensures SortByIndex([Fragment(1, GoldSourceExample1), Fragment(0, GoldSourceExample0)]) ==
      [Fragment(0, GoldSourceExample0), Fragment(1, GoldSourceExample1)]
  {
    var f0, f1 := Fragment(0, GoldSourceExample0), Fragment(1, GoldSourceExample1);
    assert [f1, f0][..1] == [f1];
    assert SortByIndex([f1]) == [f1];
    assert InsertByIndex(f0, [f1]) == [f0, f1];
  }

  lemma GoldSourceExampleJoined()
    ensures GoldSourceJoin([Fragment(0, GoldSourceExample0), Fragment(1, GoldSourceExample1)]) == [0xDE, 0xAD, 0xBE, 0xEF]
  {
    var f0, f1 := Fragment(0, GoldSourceExample0), Fragment(1, GoldSourceExample1);
    assert Skip(GoldSourceExample0, 13) == [0xDE, 0xAD];
    assert [f1][..0] == [];
    assert Skip(GoldSourceExample1, 9) == [0xBE, 0xEF];
    assert ConcatFrom([f1], 9) == [0xBE, 0xEF];
    assert [f0, f1][1..] == [f1];
  }

  lemma GoldSourceExampleCollected()
    ensures GoldSourcePacketsSpec(GoldSourceExample1, [Datagram(GoldSourceExample0)]) ==
      (Success(GoldSourceJoin(SortByIndex([Fragment(1, GoldSourceExample1), Fragment(0, GoldSourceExample0)]))), [])
  {
    var frag0, frag1 := GoldSourceExample0, GoldSourceExample1;
    assert FragmentCount(GoldSource, frag1) == 2 && FragmentIndex(GoldSource, frag1) == 1;
    assert FragmentIndex(GoldSource, frag0) == 0;
    assert [Datagram(frag0)][1..] == [];
    assert Receive([Datagram(frag0)]) == (Success(frag0), []);
    assert CollectFragments(GoldSource, [], 0) == (Success([]), []);
    assert [Fragment(0, frag0)] + [] == [Fragment(0, frag0)];
    assert CollectFragments(GoldSource, [Datagram(frag0)], 1) == (Success([Fragment(0, frag0)]), []);
    assert [Fragment(1, frag1)] + [Fragment(0, frag0)] == [Fragment(1, frag1), Fragment(0, frag0)];
  }

  lemma GoldSourceExampleReassembled()
    ensures GoldSourcePacketsSpec(GoldSourceExample1, [Datagram(GoldSourceExample0)]) == (Success([0xDE, 0xAD, 0xBE, 0xEF]), [])
  {
    GoldSourceExampleCollected();
    GoldSourceExampleSorted();
    GoldSourceExampleJoined();
  }

  /** The two-fragment GoldSource response DE AD / BE EF yields DE AD BE EF, here arriving fragment 1 first. */
  lemma GoldSourceTwoFragmentExample(decompress: seq<Byte> -> Option<seq<Byte>>, crc32: seq<Byte> -> int)
    ensures ResponseSpec(GoldSource, false, [Datagram(GoldSourceExample1), Datagram(GoldSourceExample0)], decompress, crc32) ==
      Outcome(Success([0xDE, 0xAD, 0xBE, 0xEF]), [], false)
  {
    var frag0, frag1 := GoldSourceExample0, GoldSourceExample1;
    assert Classify(GoldSource, frag1, [Datagram(frag0)], decompress, crc32) == Outcome(Success([0xDE, 0xAD, 0xBE, 0xEF]), [], false) by {
      assert Int32LE(frag1, 0) == MultiPacket;
      GoldSourceExampleReassembled();
    }
    assert Receive([Datagram(frag1), Datagram(frag0)]) == (Success(frag1), [Datagram(frag0)]);
  }

  /** The single-packet response FF FF FF FF "INFOOK" yields "INFOOK". */
  lemma SinglePacketExample(engine: EngineType, decompress: seq<Byte> -> Option<seq<Byte>>, crc32: seq<Byte> -> int)
    ensures ResponseSpec(engine, false, [Datagram([0xFF, 0xFF, 0xFF, 0xFF, 73, 78, 70, 79, 79, 75])], decompress, crc32) ==
      Outcome(Success([73, 78, 70, 79, 79, 75]), [], false)
  {
    SinglePacketResponse(engine, [0xFF, 0xFF, 0xFF, 0xFF, 73, 78, 70, 79, 79, 75], [], decompress, crc32);
    assert [Datagram([0xFF, 0xFF, 0xFF, 0xFF, 73, 78, 70, 79, 79, 75])] + [] == [Datagram([0xFF, 0xFF, 0xFF, 0xFF, 73, 78, 70, 79, 79, 75])];
  }

  /** Nothing put before a collection leaves it as it is. */
  lemma PrependNothing(c: (Result<seq<Fragment>, ErrorKind>, seq<Arrival>))
    ensures Prepend([], c) == c
  {
    if c.0.Success? {
      assert [] + c.0.value == c.0.value;
    }
  }

  /** Collecting fragments after `xs` and then `ys` is collecting them after `xs + ys`. */
  lemma PrependTwice(xs: seq<Fragment>, ys: seq<Fragment>, c: (Result<seq<Fragment>, ErrorKind>, seq<Arrival>))
    ensures Prepend(xs, Prepend(ys, c)) == Prepend(xs + ys, c)
  {
    if c.0.Success? {
      assert xs + (ys + c.0.value) == (xs + ys) + c.0.value;
    }
  }

  // ---------------------------------------------------------------------------
  // The query object

  /**
   * `UdpQuery`: the socket (its pending arrivals and whether it is disposed)
   * and the engine type the last `GetResponse` set.
   */
  class UdpQuery {
    var incoming: seq<Arrival>
    var disposed: bool
    var engineType: EngineType
    const decompress: seq<Byte> -> Option<seq<Byte>>
    const crc32: seq<Byte> -> int

    constructor(arrivals: seq<Arrival>, decompress: seq<Byte> -> Option<seq<Byte>>, crc32: seq<Byte> -> int)
      ensures incoming == arrivals && !disposed
      ensures this.decompress == decompress && this.crc32 == crc32
    {
      incoming := arrivals;
      disposed := false;
      engineType := Source;
      this.decompress := decompress;
      this.crc32 := crc32;
    }

    /** `ReceiveData`: the next datagram, a socket error, or the timeout when nothing is left. */
    method ReceiveData() returns (r: Result<seq<Byte>, ErrorKind>)
      modifies this`incoming
      ensures (r, incoming) == Receive(old(incoming))
      ensures |incoming| < |old(incoming)| || r == Failure(Timeout)
    {
      if incoming == [] {
        return Failure(Timeout);
      }
      var a := incoming[0];
      incoming := incoming[1..];
      match a
      case Datagram(b) => return Success(b);
      case SocketFault => return Failure(SocketFailure);
    }

    method Dispose()
      modifies this`disposed
      ensures disposed
    {
      disposed := true;
    }

    /**
     * `GetResponse` after `SendData`: receive, pre-collect when asked to,
     * classify by header, and dispose of the socket on every failure past the
     * first receive.
     */
    method GetResponse(engine: EngineType, isMultiPacket: bool) returns (r: Result<seq<Byte>, QueryError>)
      modifies this`incoming, this`disposed, this`engineType
      ensures var o := ResponseSpec(engine, isMultiPacket, old(incoming), decompress, crc32);
        r == o.result && incoming == o.remaining && disposed == (old(disposed) || o.disposed)
      ensures engineType == engine
    {
      engineType := engine;
      var first := ReceiveData();
      if first.Failure? {
        return Failure(QueryError(first.error, None));
      }
      var recvData := first.value;
      if isMultiPacket {
        ghost var start := incoming;
        var data := recvData;
        while true
          invariant PreCollect(recvData, start) == PreCollect(data, incoming)
          invariant disposed == old(disposed) && engineType == engine
          decreases |incoming|
        {
          var next := ReceiveData();
          if next.Failure? {
            if next.error == Timeout {
              recvData := data;
              break;
            }
            Dispose();
            return Failure(QueryError(next.error, None));
          }
          data := data + next.value;
        }
      }
      if |recvData| < 4 {
        Dispose();
        return Failure(QueryError(HeaderTooShort, Some(recvData)));
      }
      var header := Int32LE(recvData, 0);
      var parsed: Result<seq<Byte>, ErrorKind>;
      if header == SinglePacket {
        parsed := Success(ParseSinglePkt(recvData));
      } else if header == MultiPacket {
        parsed := ParseMultiPkt(recvData);
      } else {
        parsed := Failure(InvalidHeader);
      }
      if parsed.Failure? {
        Dispose();
        return Failure(QueryError(parsed.error, Some(recvData)));
      }
      return Success(parsed.value);
    }

    /** `ParseMultiPkt`: dispatch on the engine type `GetResponse` recorded. */
    method ParseMultiPkt(data: seq<Byte>) returns (r: Result<seq<Byte>, ErrorKind>)
      modifies this`incoming
      ensures (r, incoming) == ParseMultiPktSpec(engineType, data, old(incoming), decompress, crc32)
    {
      match engineType
      case Source => r := SourcePackets(data);
      case GoldSource => r := GoldSourcePackets(data);
      case Unrecognised(_) => r := Failure(InvalidEngineType);
    }

    /** The loop `for (i = 1; i < pktCount; i++)` of both dialects: `n` more fragments in arrival order. */
    method ReceiveFragments(dialect: EngineType, n: nat) returns (r: Result<seq<Fragment>, ErrorKind>)
      requires dialect.Source? || dialect.GoldSource?
      modifies this`incoming
      ensures (r, incoming) == CollectFragments(dialect, old(incoming), n)
    {
      var frags: seq<Fragment> := [];
      var i := 0;
      PrependNothing(CollectFragments(dialect, incoming, n));
      while i < n
        invariant 0 <= i <= n
        invariant CollectFragments(dialect, old(incoming), n) == Prepend(frags, CollectFragments(dialect, incoming, n - i))
      {
        ghost var before := incoming;
        var recvData := ReceiveData();
        if recvData.Failure? {
          return Failure(recvData.error);
        }
        if |recvData.value| <= IndexOffset(dialect) {
          return Failure(IndexOutOfRange);
        }
        var frag := Fragment(FragmentIndex(dialect, recvData.value), recvData.value);
        PrependTwice(frags, [frag], CollectFragments(dialect, incoming, n - i - 1));
        frags := frags + [frag];
        i := i + 1;
      }
      assert frags + [] == frags;
      return Success(frags);
    }

    /** `GoldSourcePackets`: count and index from the nibbles of byte 8, payloads from 13 and then 9. */
    method GoldSourcePackets(data: seq<Byte>) returns (r: Result<seq<Byte>, ErrorKind>)
      modifies this`incoming
      ensures (r, incoming) == GoldSourcePacketsSpec(data, old(incoming))
    {
      if |data| <= 8 {
        return Failure(IndexOutOfRange);
      }
      var pktCount := data[8] % 16;
      assert pktCount == FragmentCount(GoldSource, data);
      ghost var collected := CollectFragments(GoldSource, incoming, if pktCount >= 1 then pktCount - 1 else 0);
      var more := ReceiveFragments(GoldSource, if pktCount >= 1 then pktCount - 1 else 0);
      assert (more, incoming) == collected;
      if more.Failure? {
        return Failure(more.error);
      }
      assert data[8] / 16 == FragmentIndex(GoldSource, data);
      var pktList := SortByIndex([Fragment(data[8] / 16, data)] + more.value);
      var bytes := JoinGoldSource(pktList);
      return Success(bytes);
    }

    /**
     * `SourcePackets`: count from byte 8 and index from byte 9; the Parser
     * reads the first fragment's header, the later ones lose 12 bytes, and a
     * compressed result is decompressed and checked against its CRC32.
     */
    method SourcePackets(data: seq<Byte>) returns (r: Result<seq<Byte>, ErrorKind>)
      modifies this`incoming
      ensures (r, incoming) == SourcePacketsSpec(data, old(incoming), decompress, crc32)
    {
      if |data| <= 9 {
        return Failure(IndexOutOfRange);
      }
      var pktCount := data[8];
      assert pktCount == FragmentCount(Source, data);
      ghost var collected := CollectFragments(Source, incoming, if pktCount >= 1 then pktCount - 1 else 0);
      var more := ReceiveFragments(Source, if pktCount >= 1 then pktCount - 1 else 0);
      assert (more, incoming) == collected;
      if more.Failure? {
        return Failure(more.error);
      }
      assert data[9] == FragmentIndex(Source, data);
      var pktList := SortByIndex([Fragment(data[9], data)] + more.value);
      var joined := JoinSource(pktList);
      if joined.Failure? {
        return Failure(joined.error);
      }
      var (hdr, recvList) := joined.value;
      var isCompressed, checksum := hdr.compressed, hdr.checksum;
      if !isCompressed {
        return Success(Skip(recvList, 4));
      }
      var plain := decompress(recvList);
      if plain.None? {
        return Failure(DecompressionFailure);
      }
      if !IsValid(plain.value, checksum, crc32) {
        return Failure(InvalidChecksum);
      }
      return Success(Skip(plain.value, 4));
    }
  }

  /** The GoldSource concatenation loop over the index-sorted fragments. */
  method JoinGoldSource(pktList: seq<Fragment>) returns (byteList: seq<Byte>)
    requires |pktList| >= 1
    ensures byteList == GoldSourceJoin(pktList)
  {
    var head := Skip(pktList[0].bytes, GoldSourceFirstPayload);
    var later: seq<Byte> := [];
    var i := 1;
    while i < |pktList|
      invariant 1 <= i <= |pktList|
      invariant later == ConcatFrom(pktList[1..i], GoldSourceLaterPayload)
    {
      ConcatFromExtends(pktList, i, GoldSourceLaterPayload);
      later := later + Skip(pktList[i].bytes, GoldSourceLaterPayload);
      i := i + 1;
    }
    assert pktList[1..i] == pktList[1..];
    byteList := head + later;
  }

  /** The Parser steps over the index-sorted Source fragments: the first fragment's header, then 12 bytes off each later one. */
  method JoinSource(pktList: seq<Fragment>) returns (r: Result<(SourceHeader, seq<Byte>), ErrorKind>)
    requires |pktList| >= 1
    ensures r == SourceJoin(pktList)
  {
    var first := pktList[0].bytes;
    if |first| < 12 {
      return Failure(ParseFailure);
    }
    var isCompressed := false;
    var checksum := 0;
    if Int32LE(first, 4) < 0 {
      isCompressed := true;
    }
    var offset := SourcePlainPayload;
    if isCompressed {
      if |first| < 18 {
        return Failure(ParseFailure);
      }
      checksum := Int32LE(first, 14);
      offset := SourceCompressedPayload;
    }
    var recvList := first[offset..];
    var i := 1;
    while i < |pktList|
      invariant 1 <= i <= |pktList|
      invariant LaterPayloads(pktList[1..i]).Success?
      invariant recvList == first[offset..] + LaterPayloads(pktList[1..i]).value
    {
      var later := pktList[i].bytes;
      ghost var done := pktList[1..i + 1];
      assert done[..|done| - 1] == pktList[1..i] && done[|done| - 1] == pktList[i];
      if |later| < SourceLaterPayload {
        assert LaterPayloads(done) == Failure(ParseFailure);
        assert pktList[1..][..i] == done;
        LaterPayloadsPrefixFails(pktList[1..], i);
        return Failure(ParseFailure);
      }
      recvList := recvList + later[SourceLaterPayload..];
      i := i + 1;
    }
    assert pktList[1..i] == pktList[1..];
    return Success((SourceHeader(isCompressed, checksum, offset), recvList));
  }
}
