/** Writing a backend's response straight to the client versus buffering it and replaying it later.
    Header names are taken in canonical form; only final status codes occur. */
module Responses {

  type Header = map<string, seq<string>>

  /** What a handler does to an http.ResponseWriter, in order. */
  datatype Op = Add(key: string, value: string) | Status(code: int) | Body(chunk: string)

  /** The client's end: `headers` is the live header map, `sentHeaders` its snapshot when the status went
      out. The first status wins; a body without a status sends 200. */
  datatype Wire = Wire(headers: Header, sent: bool, status: int, sentHeaders: Header, body: string)

  datatype Buffer = Buffer(header: Header, body: string, statusCode: int, written: bool)

  const OK: int := 200
  const LATENCY: string := "X-Gateway-Latency"

  function Get(h: Header, key: string): seq<string> {
    if key in h then h[key] else []
  }

  function AddTo(h: Header, key: string, values: seq<string>): Header {
    h[key := Get(h, key) + values]
  }

  function Merge(h: Header, g: Header): Header {
    map k | k in h.Keys + g.Keys :: Get(h, k) + Get(g, k)
  }

  function Commit(w: Wire, code: int): Wire {
    if w.sent then w else w.(sent := true, status := code, sentHeaders := w.headers)
  }

  /** net/http sends 200 for a handler that wrote nothing. */
  function Finish(w: Wire): Wire {
    Commit(w, OK)
  }

  /** One call through `latencyWriter` and `responseRecorder`. */
  function Pass(w: Wire, latency: string, op: Op): Wire {
    match op
    case Add(k, v) => w.(headers := AddTo(w.headers, k, [v]))
    case Status(code) => Commit(Stamp(w, latency), code)
    case Body(p) => var c := Commit(Stamp(w, latency), OK); c.(body := c.body + p)
  }

  function Stamp(w: Wire, latency: string): Wire {
    if w.sent then w else w.(headers := w.headers[LATENCY := [latency]])
  }

  function Direct(w: Wire, latency: string, ops: seq<Op>): Wire {
    if ops == [] then w else Pass(Direct(w, latency, ops[..|ops| - 1]), latency, ops[|ops| - 1])
  }

  function Store(b: Buffer, op: Op): Buffer {
    match op
    case Add(k, v) => b.(header := AddTo(b.header, k, [v]))
    case Status(code) => if b.written then b else b.(statusCode := code, written := true)
    case Body(p) => if b.written then b.(body := b.body + p) else b.(body := b.body + p, statusCode := OK, written := true)
  }

  const EMPTY: Buffer := Buffer(map[], "", OK, false)

  function Buffered(ops: seq<Op>): Buffer {
    if ops == [] then EMPTY else Store(Buffered(ops[..|ops| - 1]), ops[|ops| - 1])
  }

  /** Stamp the latency, add the buffered headers, send status and body. */
  function Replay(w: Wire, latency: string, b: Buffer): Wire {
    var h := Merge(w.headers[LATENCY := [latency]], b.header);
    var c := Commit(w.(headers := h), b.statusCode);
    c.(body := c.body + b.body)
  }

  // ---------- What the operations mean, independently of either path ----------

  predicate Commits(ops: seq<Op>) {
    exists i :: 0 <= i < |ops| && !ops[i].Add?
  }

  function StatusOf(ops: seq<Op>): int {
    if ops == [] then OK
    else if ops[0].Status? then ops[0].code
    else if ops[0].Body? then OK
    else StatusOf(ops[1..])
  }

  function BodyOf(ops: seq<Op>): string {
    if ops == [] then "" else BodyOf(ops[..|ops| - 1]) + if ops[|ops| - 1].Body? then ops[|ops| - 1].chunk else ""
  }

  predicate Adds(op: Op, key: string) {
    op.Add? && op.key == key
  }

  /** Values added under `key` while (`early`) or regardless of whether the status is still unsent. */
  function Values(ops: seq<Op>, key: string, early: bool): seq<string> {
    if ops == [] then [] else
    var init, last := ops[..|ops| - 1], ops[|ops| - 1];
    Values(init, key, early) + if Adds(last, key) && !(early && Commits(init)) then [last.value] else []
  }

  lemma CommitsStep(ops: seq<Op>)
    requires ops != []
    ensures Commits(ops) <==> Commits(ops[..|ops| - 1]) || !ops[|ops| - 1].Add?
  {
    var init := ops[..|ops| - 1];
    if Commits(init) {
      var i :| 0 <= i < |init| && !init[i].Add?;
      assert !ops[i].Add?;
    }
  }

  lemma {:induction false} StatusStep(ops: seq<Op>)
    requires ops != []
    ensures StatusOf(ops) == if Commits(ops[..|ops| - 1]) || ops[|ops| - 1].Add? then StatusOf(ops[..|ops| - 1])
                             else if ops[|ops| - 1].Status? then ops[|ops| - 1].code else OK
  {
    var init := ops[..|ops| - 1];
    if |ops| == 1 {
      assert ops[1..] == [];
    } else {
      StatusStep(ops[1..]);
      assert ops[1..][..|ops| - 2] == init[1..];
      if ops[0].Add? {
        if Commits(init) {
          var i :| 0 <= i < |init| && !init[i].Add?;
          assert !init[1..][i - 1].Add?;
        }
        if Commits(init[1..]) {
          var i :| 0 <= i < |init[1..]| && !init[1..][i].Add?;
          assert !init[i + 1].Add?;
        }
      } else {
        assert !init[0].Add?;
      }
    }
  }

  lemma {:induction false} BufferedMeaning(ops: seq<Op>, key: string)
    ensures var b := Buffered(ops);
            && b.written == Commits(ops) && b.statusCode == StatusOf(ops) && b.body == BodyOf(ops)
            && Get(b.header, key) == Values(ops, key, false)
  {
    if ops != [] {
      BufferedMeaning(ops[..|ops| - 1], key);
      CommitsStep(ops);
      StatusStep(ops);
      assert !Commits(ops[..|ops| - 1]) ==> StatusOf(ops[..|ops| - 1]) == OK by {
        UncommittedIsOk(ops[..|ops| - 1]);
      }
    }
  }

  lemma {:induction false} UncommittedIsOk(ops: seq<Op>)
    ensures !Commits(ops) ==> StatusOf(ops) == OK && BodyOf(ops) == ""
    ensures !Commits(ops) ==> forall key :: Values(ops, key, true) == Values(ops, key, false)
  {
    if ops != [] {
      CommitsStep(ops);
      StatusStep(ops);
      UncommittedIsOk(ops[..|ops| - 1]);
    }
  }

  lemma PassSends(w: Wire, latency: string, op: Op)
    ensures var d := Pass(w, latency, op);
            && d.sent == (w.sent || !op.Add?)
            && d.body == w.body + (if op.Body? then op.chunk else "")
            && (w.sent ==> d.status == w.status && d.sentHeaders == w.sentHeaders)
            && (!w.sent && d.sent ==> d.status == (if op.Status? then op.code else OK) && Get(d.sentHeaders, LATENCY) == [latency])
  {
  }

  lemma {:induction false} DirectSends(w: Wire, latency: string, ops: seq<Op>)
    requires !w.sent
    ensures var d := Direct(w, latency, ops);
            && d.sent == Commits(ops) && (d.sent ==> d.status == StatusOf(ops)) && d.body == w.body + BodyOf(ops)
            && (d.sent ==> Get(d.sentHeaders, LATENCY) == [latency])
  {
    if ops != [] {
      DirectSends(w, latency, ops[..|ops| - 1]);
      PassSends(Direct(w, latency, ops[..|ops| - 1]), latency, ops[|ops| - 1]);
      CommitsStep(ops);
      StatusStep(ops);
    }
  }

  /** Headers as the client will see them, sent or still pending. */
  function Visible(w: Wire): Header {
    if w.sent then w.sentHeaders else w.headers
  }

  lemma PassVisible(w: Wire, latency: string, op: Op, key: string)
    requires key != LATENCY
    ensures Get(Visible(Pass(w, latency, op)), key)
         == Get(Visible(w), key) + if Adds(op, key) && !w.sent then [op.value] else []
  {
  }

  lemma {:induction false} DirectMeaning(w: Wire, latency: string, ops: seq<Op>, key: string)
    requires !w.sent && key != LATENCY
    ensures Get(Visible(Direct(w, latency, ops)), key) == Get(w.headers, key) + Values(ops, key, true)
  {
    if ops != [] {
      var init := ops[..|ops| - 1];
      DirectMeaning(w, latency, init, key);
      DirectSends(w, latency, init);
      PassVisible(Direct(w, latency, init), latency, ops[|ops| - 1], key);
    }
  }

  /** Buffering and replaying delivers the same status and body as writing directly, and the same values
      under a header exactly when nothing was added to it after the status went out: the buffer keeps such
      late additions, the wire does not. */
  lemma ReplayEqualsDirect(w: Wire, latency: string, ops: seq<Op>, key: string)
    requires !w.sent && key != LATENCY
    ensures var d, r := Finish(Direct(w, latency, ops)), Finish(Replay(w, latency, Buffered(ops)));
            && d.sent && r.sent && d.status == r.status == StatusOf(ops)
            && d.body == r.body == w.body + BodyOf(ops)
            && Get(d.sentHeaders, key) == Get(w.headers, key) + Values(ops, key, true)
            && Get(r.sentHeaders, key) == Get(w.headers, key) + Values(ops, key, false)
            && (Get(d.sentHeaders, key) == Get(r.sentHeaders, key) <==> !LateAddition(ops, key))
  {
    DirectSends(w, latency, ops);
    DirectMeaning(w, latency, ops, key);
    BufferedMeaning(ops, key);
    UncommittedIsOk(ops);
    LateMeansMore(ops, key);
  }

  /** A value is added to `key` after the first status or body. */
  ghost predicate LateAddition(ops: seq<Op>, key: string) {
    exists i, j :: 0 <= i < j < |ops| && !ops[i].Add? && Adds(ops[j], key)
  }

  lemma LateStep(init: seq<Op>, last: Op, key: string)
    ensures LateAddition(init + [last], key) <==> LateAddition(init, key) || (Commits(init) && Adds(last, key))
  {
    var ops := init + [last];
    assert ops[|init|] == last;
    assert forall i | 0 <= i < |init| :: ops[i] == init[i];
  }

  lemma {:induction false} LateMeansMore(ops: seq<Op>, key: string)
    ensures |Values(ops, key, true)| <= |Values(ops, key, false)|
    ensures LateAddition(ops, key) ==> |Values(ops, key, true)| < |Values(ops, key, false)|
    ensures !LateAddition(ops, key) ==> Values(ops, key, true) == Values(ops, key, false)
  {
    if ops != [] {
      var init, last := ops[..|ops| - 1], ops[|ops| - 1];
      assert ops == init + [last];
      LateMeansMore(init, key);
      LateStep(init, last, key);
    }
  }

  /** For instance: a header added after the status reaches the client only through a replay. */
  lemma LateAdditionDiffers(w: Wire, latency: string)
    requires !w.sent && "X" !in w.headers
    ensures var ops := [Status(200), Add("X", "late")];
            && Get(Finish(Direct(w, latency, ops)).sentHeaders, "X") == []
            && Get(Finish(Replay(w, latency, Buffered(ops))).sentHeaders, "X") == ["late"]
  {
    var ops := [Status(200), Add("X", "late")];
    ReplayEqualsDirect(w, latency, ops, "X");
    assert ops[..1] == [Status(200)] && ops[..1][..0] == [] && ops[..0] == [];
    assert Values(ops[..1], "X", true) == Values(ops[..1], "X", false) == [];
    assert !ops[..1][0].Add?;
  }

  /** A response without a status or body passes direct delivery unstamped. */
  lemma {:induction false} UncommittedIsUnstamped(w: Wire, latency: string, ops: seq<Op>, key: string)
    requires !w.sent && !Commits(ops)
    ensures !Direct(w, latency, ops).sent
    ensures Get(Direct(w, latency, ops).headers, key) == Get(w.headers, key) + Values(ops, key, false)
  {
    if ops != [] {
      CommitsStep(ops);
      UncommittedIsUnstamped(w, latency, ops[..|ops| - 1], key);
    }
  }

  lemma {:induction false} NoValuesExactlyWhen(ops: seq<Op>, key: string)
    ensures Values(ops, key, false) == [] <==> forall i | 0 <= i < |ops| :: !Adds(ops[i], key)
  {
    if ops != [] {
      var init := ops[..|ops| - 1];
      NoValuesExactlyWhen(init, key);
      assert forall i | 0 <= i < |init| :: ops[i] == init[i];
    }
  }

  /** The gateway's own latency header: direct delivery overwrites what the backend sends, a replay appends it.
      So the paths agree on it exactly when the backend sends none. A response without a status or body is
      stamped by a replay only; then they agree exactly when the header was already there. */
  lemma LatencyHeader(w: Wire, latency: string, ops: seq<Op>)
    requires !w.sent
    ensures var d, r := Finish(Direct(w, latency, ops)).sentHeaders, Finish(Replay(w, latency, Buffered(ops))).sentHeaders;
            && Get(d, LATENCY) == (if Commits(ops) then [latency] else Get(w.headers, LATENCY) + Values(ops, LATENCY, false))
            && Get(r, LATENCY) == [latency] + Values(ops, LATENCY, false)
            && (Get(d, LATENCY) == Get(r, LATENCY) <==>
                  if Commits(ops) then forall i | 0 <= i < |ops| :: !Adds(ops[i], LATENCY)
                  else Get(w.headers, LATENCY) == [latency])
  {
    DirectSends(w, latency, ops);
    BufferedMeaning(ops, LATENCY);
    NoValuesExactlyWhen(ops, LATENCY);
    var vs := Values(ops, LATENCY, false);
    if Commits(ops) {
      assert [latency] == [latency] + vs <==> vs == [] by {
        assert |[latency] + vs| == 1 + |vs|;
      }
    } else {
      UncommittedIsUnstamped(w, latency, ops, LATENCY);
      SameFront(Get(w.headers, LATENCY), [latency], vs);
    }
  }

  lemma SameFront(a: seq<string>, b: seq<string>, c: seq<string>)
    ensures a + c == b + c <==> a == b
  {
    if a + c == b + c {
      assert |a + c| == |b + c|;
      assert a == (a + c)[..|a|] == (b + c)[..|b|] == b;
    }
  }

  /** `responseRecorder` (with `latencyWriter` in front of it on the final attempt). */
  class ResponseRecorder {
    var wire: Wire
    var statusCode: int
    var written: bool

    constructor (w: Wire)
      ensures wire == w && statusCode == OK && !written
    {
      wire, statusCode, written := w, OK, false;
    }

    method WriteHeader(code: int)
      modifies this
      ensures wire == Commit(old(wire), code) && written
      ensures statusCode == if old(written) then old(statusCode) else code
    {
      if !written {
        statusCode := code;
        written := true;
      }
      wire := Commit(wire, code);
    }

    method Write(p: string)
      modifies this
      ensures wire == (var c := Commit(old(wire), OK); c.(body := c.body + p)) && written
      ensures statusCode == if old(written) then old(statusCode) else OK
    {
      if !written {
        statusCode := OK;
        written := true;
      }
      wire := Commit(wire, OK);
      wire := wire.(body := wire.body + p);
    }

    /** A backend response written straight through. */
    method Relay(latency: string, ops: seq<Op>)
      requires !wire.sent && !written && statusCode == OK
      modifies this
      ensures wire == Direct(old(wire), latency, ops)
      ensures statusCode == StatusOf(ops)
    {
      ghost var w := wire;
      for i := 0 to |ops|
        invariant wire == Direct(w, latency, ops[..i])
        invariant written == Commits(ops[..i]) == wire.sent && statusCode == StatusOf(ops[..i])
      {
        var next := ops[..i + 1];
        assert next[..i] == ops[..i];
        CommitsStep(next);
        StatusStep(next);
        match ops[i]
        case Add(k, v) => wire := wire.(headers := AddTo(wire.headers, k, [v]));
        case Status(code) =>
          wire := Stamp(wire, latency);
          WriteHeader(code);
        case Body(p) =>
          wire := Stamp(wire, latency);
          Write(p);
      }
      assert ops[..|ops|] == ops;
    }
  }

  /** `responseBuffer`, taken from and returned to a pool. */
  class ResponseBuffer {
    var header: Header
    var body: string
    var statusCode: int
    var written: bool

    ghost function Model(): Buffer
      reads this
    {
      Buffer(header, body, statusCode, written)
    }

    /** However dirty the pooled buffer was. */
    method Reset()
      modifies this
      ensures Model() == EMPTY
    {
      header, body, statusCode, written := map[], "", OK, false;
    }

    /** A backend response captured from a clean buffer. */
    method Capture(ops: seq<Op>)
      requires Model() == EMPTY
      modifies this
      ensures Model() == Buffered(ops)
    {
      for i := 0 to |ops|
        invariant Model() == Buffered(ops[..i])
      {
        assert ops[..i + 1][..i] == ops[..i];
        match ops[i]
        case Add(k, v) => header := AddTo(header, k, [v]);
        case Status(code) => WriteHeader(code);
        case Body(p) => Write(p);
      }
      assert ops[..|ops|] == ops;
    }

    method WriteHeader(code: int)
      modifies this
      ensures Model() == Store(old(Model()), Status(code))
    {
      if !written {
        statusCode, written := code, true;
      }
    }

    method Write(p: string)
      modifies this
      ensures Model() == Store(old(Model()), Body(p))
    {
      if !written {
        statusCode, written := OK, true;
      }
      body := body + p;
    }

    method ReplayTo(rr: ResponseRecorder, latency: string)
      requires !rr.wire.sent && !rr.written
      modifies rr
      ensures rr.wire == Replay(old(rr.wire), latency, Model())
      ensures rr.statusCode == statusCode
    {
      rr.wire := rr.wire.(headers := rr.wire.headers[LATENCY := [latency]]);
      rr.wire := rr.wire.(headers := Merge(rr.wire.headers, header));
      rr.WriteHeader(statusCode);
      rr.Write(body);
    }
  }
}
