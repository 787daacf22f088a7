/**
 * Properties of sequences of requests made to one map accessor: the
 * attribute cursor resumes where it stopped, and the slot admits exactly
 * one value per key.
 */
module MapProtocol {
  import opened Results
  import Events
  import opened DeMap

  // ---------------------------------------------------------------------
  // Resuming the attribute cursor

  /** True when every entry of the span is a well-formed pair. */
  predicate AllGood(items: seq<Events.AttrItem>)
  {
    forall k :: 0 <= k < |items| ==> items[k].Good?
  }

  /** The (key, value) pairs of a span of well-formed entries, in document order. */
  function Pairs(items: seq<Events.AttrItem>): (ps: seq<(Bytes, Bytes)>)
    requires AllGood(items)
    ensures |ps| == |items|
  {
    if items == [] then []
    else [(items[0].attr.key, items[0].attr.value)] + Pairs(items[1..])
  }

  /**
   * Drives the saved offset from `pos` to the end of the span, one
   * `NextAttrStep` at a time, collecting the pairs; the first fault ends it.
   */
  function Drain(start: Events.BytesStart, pos: nat): Result<seq<(Bytes, Bytes)>, DeError>
    decreases |start.attrs| - pos
  {
    var (next, after) := NextAttrStep(start, pos);
    match next
    case Err(e) => Err(e)
    case Ok(None) => Ok([])
    case Ok(Some(pair)) =>
      match Drain(start, after)
      case Ok(rest) => Ok([pair] + rest)
      case Err(e) => Err(e)
  }

  /** Resuming at a saved offset yields exactly the pairs that remain after it. */
  lemma {:induction false} DrainYieldsSuffix(start: Events.BytesStart, pos: nat)
    requires pos <= |start.attrs|
    requires AllGood(start.attrs[pos..])
    ensures Drain(start, pos) == Ok(Pairs(start.attrs[pos..]))
    decreases |start.attrs| - pos
  {
    if pos < |start.attrs| {
      var tail := start.attrs[pos + 1..];
      assert start.attrs[pos..] == [start.attrs[pos]] + tail;
      assert AllGood(tail) by {
        forall k | 0 <= k < |tail| ensures tail[k].Good? {
          assert tail[k] == start.attrs[pos..][k + 1];
        }
      }
      assert start.attrs[pos..][0].Good?;
      DrainYieldsSuffix(start, pos + 1);
    }
  }

  /** A fault met while resuming ends the drive with that fault. */
  lemma {:induction false} DrainStopsAtFault(start: Events.BytesStart, pos: nat, bad: nat)
    requires pos <= bad < |start.attrs|
    requires AllGood(start.attrs[pos..bad]) && start.attrs[bad].Bad?
    ensures Drain(start, pos) == Err(Xml(Events.Attr(start.attrs[bad].fault)))
    decreases bad - pos
  {
    if pos < bad {
      assert start.attrs[pos..bad][0].Good?;
      var rest := start.attrs[pos + 1..bad];
      assert AllGood(rest) by {
        forall k | 0 <= k < |rest| ensures rest[k].Good? {
          assert rest[k] == start.attrs[pos..bad][k + 1];
        }
      }
      DrainStopsAtFault(start, pos + 1, bad);
    }
  }

  /**
   * A full scan from the tag's initial offset yields every pair in document
   * order, and the pairs seen from a saved offset are exactly its tail:
   * resuming never rescans what was already read.
   */
  lemma ResumeIsSuffixOfFullScan(start: Events.BytesStart, pos: nat)
    requires AllGood(start.attrs) && pos <= |start.attrs|
    ensures Drain(start, start.Attributes().position) == Ok(Pairs(start.attrs))
    ensures Drain(start, pos) == Ok(Pairs(start.attrs)[pos..])
  {
    assert start.attrs[0..] == start.attrs;
    DrainYieldsSuffix(start, 0);
    assert AllGood(start.attrs[pos..]) by {
      forall k | 0 <= k < |start.attrs[pos..]| ensures start.attrs[pos..][k].Good? {
        assert start.attrs[pos..][k] == start.attrs[pos + k];
      }
    }
    DrainYieldsSuffix(start, pos);
    PairsSuffix(start.attrs, pos);
  }

  lemma {:induction false} PairsSuffix(items: seq<Events.AttrItem>, pos: nat)
    requires AllGood(items) && pos <= |items|
    ensures AllGood(items[pos..]) && Pairs(items[pos..]) == Pairs(items)[pos..]
  {
    assert AllGood(items[pos..]) by {
      forall k | 0 <= k < |items[pos..]| ensures items[pos..][k].Good? {
        assert items[pos..][k] == items[pos + k];
      }
    }
    if pos > 0 {
      assert items[1..][pos - 1..] == items[pos..];
      assert AllGood(items[1..]) by {
        forall k | 0 <= k < |items[1..]| ensures items[1..][k].Good? {
          assert items[1..][k] == items[k + 1];
        }
      }
      PairsSuffix(items[1..], pos - 1);
    }
  }

  // ---------------------------------------------------------------------
  // Sequences of key and value requests

  /** A request made to the accessor, with what the parent deserializer supplies. */
  datatype Call =
    | NextKey(peeked: Result<Option<Events.Event>, DeError>, hasValueField: bool)
    | NextValue

  /** What a request returned. */
  datatype Reply =
    | KeyReply(key: Result<Option<KeyInput>, DeError>)
    | ValueReply(value: Result<ValueInput, DeError>)

  function Apply(start: Events.BytesStart, s: AccessState, c: Call): (Reply, AccessState)
  {
    match c
    case NextKey(peeked, hasValueField) =>
      var (r, s') := KeyStep(start, s, peeked, hasValueField);
      (KeyReply(r), s')
    case NextValue =>
      var (r, s') := ValueStep(s);
      (ValueReply(r), s')
  }

  /** The accessor's state after `calls`, starting from a fresh accessor. */
  function After(start: Events.BytesStart, calls: seq<Call>): AccessState
  {
    if calls == [] then Init(start)
    else Apply(start, After(start, calls[..|calls| - 1]), calls[|calls| - 1]).1
  }

  /** The reply to request `i` of `calls`. */
  function ReplyAt(start: Events.BytesStart, calls: seq<Call>, i: nat): Reply
    requires i < |calls|
  {
    Apply(start, After(start, calls[..i]), calls[i]).0
  }

  /** Every state reachable from a fresh accessor keeps its offset within the attribute span. */
  lemma {:induction false} Reach(start: Events.BytesStart, calls: seq<Call>)
    ensures After(start, calls).position <= |start.attrs|
  {
    if calls != [] {
      Reach(start, calls[..|calls| - 1]);
    }
  }

  /** A key request that produced a key. */
  predicate YieldedKey(r: Reply)
  {
    r.KeyReply? && r.key.Ok? && r.key.value.Some?
  }

  predicate NoValueAfter(calls: seq<Call>, j: nat)
  {
    forall m :: j < m < |calls| ==> calls[m].NextKey?
  }

  /** Some key was produced and no value has been requested since. */
  ghost predicate Pending(start: Events.BytesStart, calls: seq<Call>)
  {
    exists j :: 0 <= j < |calls| && YieldedKey(ReplyAt(start, calls, j)) && NoValueAfter(calls, j)
  }

  /**
   * The slot holds something exactly when a key was produced and no value
   * request has come since; failed or ending key requests leave it alone.
   */
  lemma {:induction false} SlotPendingIff(start: Events.BytesStart, calls: seq<Call>)
    ensures !After(start, calls).value.Empty? <==> Pending(start, calls)
  {
    if calls == [] {
      return;
    }
    var n := |calls| - 1;
    var p := calls[..n];
    var c := calls[n];
    assert calls == p + [c];
    SlotPendingIff(start, p);
    forall j | 0 <= j < n ensures ReplyAt(start, calls, j) == ReplyAt(start, p, j) {
      assert calls[..j] == p[..j];
    }
    assert ReplyAt(start, calls, n) == Apply(start, After(start, p), c).0;
    match c
    case NextValue =>
      assert After(start, calls).value.Empty?;
      forall j | 0 <= j < |calls| && YieldedKey(ReplyAt(start, calls, j)) ensures !NoValueAfter(calls, j) {
        assert j < n;
      }
    case NextKey(peeked, hasValueField) =>
      if YieldedKey(ReplyAt(start, calls, n)) {
        assert NoValueAfter(calls, n);
      } else {
        assert After(start, calls) == After(start, p);
        if Pending(start, p) {
          var j :| 0 <= j < n && YieldedKey(ReplyAt(start, p, j)) && NoValueAfter(p, j);
          assert NoValueAfter(calls, j);
        }
        if Pending(start, calls) {
          var j :| 0 <= j < |calls| && YieldedKey(ReplyAt(start, calls, j)) && NoValueAfter(calls, j);
          assert j < n;
          assert NoValueAfter(p, j);
        }
      }
  }

  /**
   * A value request succeeds exactly when a key was produced before it and
   * no other value request came in between; otherwise it fails with
   * `EndOfAttributes`.
   */
  lemma ValueSucceedsIffKeyPending(start: Events.BytesStart, calls: seq<Call>, i: nat)
    requires i < |calls| && calls[i] == NextValue
    ensures ReplyAt(start, calls, i).value.Ok? <==> Pending(start, calls[..i])
    ensures ReplyAt(start, calls, i).value.Err? ==> ReplyAt(start, calls, i).value.error == EndOfAttributes
  {
    SlotPendingIff(start, calls[..i]);
  }

  /** Two value requests in a row: the second always fails. */
  lemma SecondValueFails(start: Events.BytesStart, calls: seq<Call>, i: nat)
    requires i + 1 < |calls| && calls[i] == NextValue && calls[i + 1] == NextValue
    ensures ReplyAt(start, calls, i + 1) == ValueReply(Err(EndOfAttributes))
  {
  }

  /** A value request on a fresh accessor, before any key, fails. */
  lemma FirstValueFails(start: Events.BytesStart, calls: seq<Call>)
    requires |calls| > 0 && calls[0] == NextValue
    ensures ReplyAt(start, calls, 0) == ValueReply(Err(EndOfAttributes))
  {
  }

  /**
   * While an attribute remains, a key request does not look at the peeked
   * event or at the inner-value flag: any two of them give the same outcome,
   * a peek error included.
   */
  lemma PeekIgnoredWhileAttributes(start: Events.BytesStart, s: AccessState,
                                   p1: Result<Option<Events.Event>, DeError>, h1: bool,
                                   p2: Result<Option<Events.Event>, DeError>, h2: bool)
    requires s.position < |start.attrs|
    ensures KeyStep(start, s, p1, h1) == KeyStep(start, s, p2, h2)
    ensures KeyStep(start, s, p1, h1).0.Ok? <==> start.attrs[s.position].Good?
  {
  }

  /**
   * A key request that produced a key, followed by a value request: the
   * value belongs to that key. An attribute key brings its raw value with
   * unescaping on; the inner-value key and a child's name delegate to the
   * parent deserializer.
   */
  lemma KeyThenValue(start: Events.BytesStart, s: AccessState, peeked: Result<Option<Events.Event>, DeError>,
                     hasValueField: bool)
    requires s.position <= |start.attrs|
    requires KeyStep(start, s, peeked, hasValueField).0.Ok?
    requires KeyStep(start, s, peeked, hasValueField).0.value.Some?
    ensures var (_, s1) := KeyStep(start, s, peeked, hasValueField);
      var (v, s2) := ValueStep(s1);
      && v.Ok?
      && s2 == AccessState(s1.position, Empty)
      && (s.position < |start.attrs| ==> v.value == ValueBytes(start.attrs[s.position].attr.value, true))
      && (s.position == |start.attrs| ==> v.value == Delegate)
  {
  }
}
