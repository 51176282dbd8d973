/** Which POST requests over HTTP/2 are answered, and with what body: DATA octets are pushed into HTTP/1 until the
    push says that the body is complete, and the frame that says so is the one answered. */
module PostedBody {
  import opened CStrings
  import opened Octets
  import opened RequestIntake
  import opened StreamState

  /** The comparison with the Content-Length: of a `size_t` for a form, signed for a multipart body. */
  predicate Full(d: Declared, n: nat) {
    n >= if d.multipart then d.length else d.length % TWO_64
  }

  /** What a frame adds to the body: of a form, a C string. */
  function Added(d: Declared, octets: Bytes): Bytes {
    if d.multipart then octets else CText(octets)
  }

  /** A form is given up when it has grown past the maximum. */
  predicate Oversize(d: Declared, data: Bytes) {
    !d.multipart && |data| > MAX_FORM
  }

  datatype Push = Push(data: Bytes, more: bool)

  function PushPost(d: Declared, data: Bytes, octets: Bytes): Push {
    if Oversize(d, data) then Push(data, false)
    else Push(data + Added(d, octets), !Full(d, |data + Added(d, octets)|))
  }

  class PostSink {
    const declared: Declared
    var data: Bytes

    constructor (declared: Declared)
      ensures this.declared == declared && data == []
    {
      this.declared, data := declared, [];
    }

    /** `PushPostData`. */
    method PushPostData(buf: Bytes) returns (more: bool)
      modifies this
      ensures Push(data, more) == PushPost(declared, old(data), buf)
    {
      if !declared.multipart {
        if |data| > MAX_FORM {
          return false;
        }
        data := data + CText(buf);
        return |data| < declared.length % TWO_64;
      }
      data := data + buf;
      more := |data| < declared.length;
    }
  }

  // ---- A POST as frames ----

  const ANSWER: seq<Reply> := [ReplyHeader, ReplyEnd]

  /** The DATA frames that carry `octets`, END_STREAM on the last, when `data` has been collected before: a frame
      is answered when its push says that no more is wanted. */
  function BodyFrames(d: Declared, data: Bytes, octets: seq<Bytes>): (fs: seq<Frame>)
    ensures |fs| == |octets|
    ensures forall i | 0 <= i < |fs| ::
              fs[i].Data? && (fs[i].endStream <==> i == |fs| - 1) && (fs[i].answer == [] || fs[i].answer == ANSWER)
    decreases |octets|
  {
    if octets == [] then []
    else
      var p := PushPost(d, data, octets[0]);
      [Data(octets[0], |octets| == 1, if p.more then [] else ANSWER)] + BodyFrames(d, p.data, octets[1..])
  }

  function PostFrames(d: Declared, octets: seq<Bytes>): seq<Frame> {
    [Headers(true, true, octets == [], [])] + BodyFrames(d, [], octets)
  }

  /** The body collected from frames none of which was answered. */
  function Collected(d: Declared, octets: seq<Bytes>): Bytes {
    if octets == [] then [] else Added(d, octets[0]) + Collected(d, octets[1..])
  }

  /** Frame `i` would be answered, had none before been. */
  predicate AnsweredAt(d: Declared, data: Bytes, octets: seq<Bytes>, i: nat)
    requires i < |octets|
  {
    || Oversize(d, data + Collected(d, octets[..i]))
    || Full(d, |data + Collected(d, octets[..i + 1])|)
  }

  lemma CollectedUpTo(d: Declared, data: Bytes, octets: seq<Bytes>, i: nat)
    requires 0 < i <= |octets|
    ensures data + Collected(d, octets[..i]) == data + Added(d, octets[0]) + Collected(d, octets[1..][..i - 1])
  {
    hide Added;
    assert octets[..i][1..] == octets[1..][..i - 1];
    var a, rest := Added(d, octets[0]), Collected(d, octets[1..][..i - 1]);
    assert data + (a + rest) == data + a + rest;
  }

  lemma CollectedOne(d: Declared, data: Bytes, octets: seq<Bytes>, i: nat)
    requires i < |octets|
    ensures i > 0 ==> (AnsweredAt(d, data, octets, i)
                       <==> AnsweredAt(d, data + Added(d, octets[0]), octets[1..], i - 1))
    ensures i == 0 ==> (AnsweredAt(d, data, octets, i) <==> !PushPost(d, data, octets[0]).more)
  {
    hide Added, Collected, Oversize, Full;
    CollectedUpTo(d, data, octets, i + 1);
    if i > 0 {
      CollectedUpTo(d, data, octets, i);
    } else {
      NoneCollected(d, octets[..0]);
      NoneCollected(d, octets[1..][..0]);
      assert data + [] == data && data + Added(d, octets[0]) + [] == data + Added(d, octets[0]);
    }
  }

  /** As long as no frame before it is answered, a frame is answered exactly when `AnsweredAt` says so. */
  lemma {:induction false} AnswersAre(d: Declared, data: Bytes, octets: seq<Bytes>, i: nat)
    requires i < |octets| && forall k | 0 <= k < i :: !AnsweredAt(d, data, octets, k)
    ensures BodyFrames(d, data, octets)[i]
         == Data(octets[i], i == |octets| - 1, if AnsweredAt(d, data, octets, i) then ANSWER else [])
    decreases |octets|
  {
    hide PushPost, AnsweredAt;
    CollectedOne(d, data, octets, i);
    if i > 0 {
      CollectedOne(d, data, octets, 0);
      PushMore(d, data, octets[0]);
      forall k | 0 <= k < i - 1
        ensures !AnsweredAt(d, data + Added(d, octets[0]), octets[1..], k)
      {
        CollectedOne(d, data, octets, k + 1);
      }
      AnswersAre(d, data + Added(d, octets[0]), octets[1..], i - 1);
    }
  }

  lemma PushMore(d: Declared, data: Bytes, octets: Bytes)
    requires PushPost(d, data, octets).more
    ensures PushPost(d, data, octets).data == data + Added(d, octets)
  {
  }

  // ---- Which are answered in time ----

  /** The frames of a POST are a request whose frames a client may send. */
  lemma PostIsRequest(d: Declared, octets: seq<Bytes>)
    ensures var fs := PostFrames(d, octets);
            Request(NotYet, fs) && BlockAfter(NotYet, fs) == Past && MaySend(fs) && AllParse(fs) && BlockInTime(fs)
  {
    var fs := PostFrames(d, octets);
    var datas := BodyFrames(d, [], octets);
    assert fs[1..] == datas;
    DataAreRequest(datas);
    assert fs[0].Answer() == [];
    assert NextBlock(NotYet, fs[0]) == Some(Past);
    assert forall i | 1 <= i < |fs| :: fs[i] == datas[i - 1];
    DataMayCome(fs);
  }

  lemma DataMayCome(fs: seq<Frame>)
    requires fs != [] && fs[0].Headers? && (fs[0].endStream ==> |fs| == 1)
    requires forall i | 1 <= i < |fs| :: fs[i].Data? && (fs[i].endStream <==> i == |fs| - 1)
    ensures MaySend(fs)
  {
    forall i | 1 <= i < |fs|
      ensures Opened(fs[..i]) && !ClientEnded(fs[..i])
    {
      assert fs[..i][0] == fs[0];
      assert forall f | f in fs[..i] :: exists k :: 0 <= k < i && f == fs[k];
    }
  }

  lemma {:induction false} DataAreRequest(datas: seq<Frame>)
    requires forall f | f in datas :: f.Data? && (f.answer == [] || f.answer == ANSWER)
    ensures Request(Past, datas) && BlockAfter(Past, datas) == Past
  {
    if datas != [] {
      assert datas[0] in datas;
      DataAreRequest(datas[1..]);
    }
  }

  /** No frame in front of the last is answered. */
  predicate Quiet(d: Declared, octets: seq<Bytes>) {
    forall k | 0 <= k < |octets| - 1 :: !AnsweredAt(d, [], octets, k)
  }

  lemma QuietInTime(d: Declared, octets: seq<Bytes>)
    ensures DataInTime(PostFrames(d, octets)) <==> Quiet(d, octets)
  {
    hide AnsweredAt;
    var fs := PostFrames(d, octets);
    var datas := BodyFrames(d, [], octets);
    assert forall i | 1 <= i < |fs| :: fs[i] == datas[i - 1];
    if Quiet(d, octets) {
      forall i, j | 0 <= i < j < |fs| && fs[j].Data?
        ensures ReplyEnd !in fs[i].Answer()
      {
        if i > 0 {
          AnswersAre(d, [], octets, i - 1);
        }
      }
    } else {
      var k :| 0 <= k < |octets| - 1 && AnsweredAt(d, [], octets, k);
      var m := FirstAnswered(d, octets, k);
      AnswersAre(d, [], octets, m);
      assert ANSWER[1] == ReplyEnd;
      assert ReplyEnd in fs[m + 1].Answer() && fs[m + 2].Data?;
    }
  }

  lemma {:induction false} FirstAnswered(d: Declared, octets: seq<Bytes>, k: nat) returns (m: nat)
    requires k < |octets| && AnsweredAt(d, [], octets, k)
    ensures m <= k && AnsweredAt(d, [], octets, m) && forall i | 0 <= i < m :: !AnsweredAt(d, [], octets, i)
    decreases k
  {
    hide AnsweredAt;
    m := k;
    if i :| 0 <= i < k && AnsweredAt(d, [], octets, i) {
      m := FirstAnswered(d, octets, i);
    }
  }

  /** Main result: the stream of a POST closes if and only if the frame with END_STREAM is the first one whose push
      says that the body is complete.  A POST whose HEADERS frame ends it is never answered. */
  lemma PostCloses(d: Declared, octets: seq<Bytes>)
    ensures AfterAll(Idle, RunActs(Idle, PostFrames(d, octets))) == Closed
       <==> octets != [] && AnsweredAt(d, [], octets, |octets| - 1) && Quiet(d, octets)
  {
    hide AnsweredAt, AfterAll, RunActs, Accepted, Request, MaySend, AllParse, BlockInTime, DataInTime, PostFrames,
         WasReset, AnsweredAtEnd, Quiet, BodyOf, DataOctets;
    var fs := PostFrames(d, octets);
    PostIsRequest(d, octets);
    QuietInTime(d, octets);
    RequestTaken(fs);
    RunBody(Idle, fs);
    ClosedExactly(fs);
    EndingFrames(d, octets, Accepted(Idle, fs));
    if Quiet(d, octets) {
      LastAnswer(d, octets);
    }
  }

  lemma LastAnswer(d: Declared, octets: seq<Bytes>)
    requires Quiet(d, octets)
    ensures ReplyEnd in PostFrames(d, octets)[|octets|].Answer()
       <==> octets != [] && AnsweredAt(d, [], octets, |octets| - 1)
  {
    hide AnsweredAt;
    if octets != [] {
      AnswersAre(d, [], octets, |octets| - 1);
      assert ANSWER[1] == ReplyEnd;
    }
  }

  /** Only the last frame can be answered at the end, if it is accepted. */
  lemma EndingFrames(d: Declared, octets: seq<Bytes>, accepted: seq<Frame>)
    requires accepted <= PostFrames(d, octets)
    ensures var fs := PostFrames(d, octets);
            && (AnsweredAtEnd(accepted) <==> accepted == fs && ReplyEnd in fs[|octets|].Answer())
            && !WasReset(accepted)
  {
    hide BodyFrames;
    var fs := PostFrames(d, octets);
    var datas := BodyFrames(d, [], octets);
    assert forall i | 1 <= i < |fs| :: fs[i] == datas[i - 1];
    assert forall i | 0 <= i < |fs| :: fs[i].Ends() <==> i == |octets|;
    if accepted == fs {
      assert fs[|octets|] in fs;
    }
    assert forall f | f in accepted :: f in fs && !f.RstStream?;
    if AnsweredAtEnd(accepted) {
      var f :| f in accepted && f.Ends() && ReplyEnd in f.Answer();
      var i :| 0 <= i < |accepted| && accepted[i] == f;
      assert fs[i] == f;
      assert i == |octets|;
      assert accepted == fs[..|accepted|];
    }
  }

  /** A negative Content-Length: the first frame of a multipart body is answered, while a form, whose length is compared
      without sign, is not until it is past its maximum. */
  lemma NegativeLength(d: Declared, octets: seq<Bytes>, i: nat)
    requires i < |octets| && -0x8000_0000_0000_0000 <= d.length < 0 && |Collected(d, octets[..i + 1])| < TWO_64 / 2
    ensures AnsweredAt(d, [], octets, i) <==> d.multipart || |Collected(d, octets[..i])| > 4 * 1024 * 1024
  {
    assert [] + Collected(d, octets[..i + 1]) == Collected(d, octets[..i + 1]);
    assert [] + Collected(d, octets[..i]) == Collected(d, octets[..i]);
    NegativeWraps(d.length);
  }

  lemma NegativeWraps(n: int)
    requires -0x8000_0000_0000_0000 <= n < 0
    ensures n % TWO_64 >= TWO_64 / 2
  {
  }

  // ---- Bodies of the announced length ----

  /** The body at hand when the request is answered, if it is. */
  function AnsweredWith(d: Declared, data: Bytes, octets: seq<Bytes>): Option<Bytes>
    decreases |octets|
  {
    if octets == [] then None
    else
      var p := PushPost(d, data, octets[0]);
      if p.more then AnsweredWith(d, p.data, octets[1..]) else Some(p.data)
  }

  lemma AnsweredWithOnce(d: Declared, data: Bytes, octets: seq<Bytes>)
    requires octets != []
    ensures AnsweredWith(d, data, octets)
         == var p := PushPost(d, data, octets[0]);
            if p.more then AnsweredWith(d, p.data, octets[1..]) else Some(p.data)
  {
  }

  lemma OneCollected(d: Declared, data: Bytes, octets: seq<Bytes>)
    requires |octets| == 1
    ensures data + Collected(d, octets[..0]) == data
    ensures data + Collected(d, octets) == data + Added(d, octets[0])
  {
    assert octets[..0] == [] && octets[1..] == [];
    assert data + [] == data && Added(d, octets[0]) + [] == Added(d, octets[0]);
  }

  /** What the last frame is answered with. */
  function LastBody(d: Declared, data: Bytes, octets: seq<Bytes>): Bytes
    requires octets != []
  {
    var before := data + Collected(d, octets[..|octets| - 1]);
    if Oversize(d, before) then before else data + Collected(d, octets)
  }

  lemma LastBodyStep(d: Declared, data: Bytes, octets: seq<Bytes>)
    requires |octets| > 1
    ensures LastBody(d, data, octets) == LastBody(d, data + Added(d, octets[0]), octets[1..])
  {
    hide Added, Collected, Oversize;
    var n := |octets|;
    CollectedUpTo(d, data, octets, n - 1);
    CollectedUpTo(d, data, octets, n);
    assert octets[..n] == octets && octets[1..][..n - 1] == octets[1..];
  }

  lemma {:induction false} LastAnswered(d: Declared, data: Bytes, octets: seq<Bytes>)
    requires octets != [] && forall k | 0 <= k < |octets| - 1 :: !AnsweredAt(d, data, octets, k)
    requires AnsweredAt(d, data, octets, |octets| - 1)
    ensures AnsweredWith(d, data, octets) == Some(LastBody(d, data, octets))
    decreases |octets|
  {
    hide AnsweredAt, AnsweredWith, Collected, Added, Full;
    var n := |octets|;
    AnsweredWithOnce(d, data, octets);
    CollectedOne(d, data, octets, 0);
    if n == 1 {
      OneCollected(d, data, octets);
    } else {
      CollectedOne(d, data, octets, n - 1);
      PushMore(d, data, octets[0]);
      LastBodyStep(d, data, octets);
      forall k | 0 <= k < n - 2
        ensures !AnsweredAt(d, data + Added(d, octets[0]), octets[1..], k)
      {
        CollectedOne(d, data, octets, k + 1);
      }
      LastAnswered(d, data + Added(d, octets[0]), octets[1..]);
    }
  }

  /** The octets as they come: all of a multipart body, a form as long as it is NUL-free. */
  predicate Clean(d: Declared, octets: seq<Bytes>) {
    d.multipart || NUL !in Flatten(octets)
  }

  lemma AddedShorter(d: Declared, octets: Bytes)
    ensures |Added(d, octets)| <= |octets|
    ensures Added(d, octets) == octets <==> d.multipart || NUL !in octets
    ensures !d.multipart && NUL in octets ==> |Added(d, octets)| < |octets|
  {
    CTextShorter(octets);
    if NUL !in octets {
      PaddingUnseen(octets, []);
      assert octets + [] == octets;
    } else if !d.multipart {
      TextCut(octets);
    }
  }

  lemma {:induction false} TextCut(s: Bytes)
    requires NUL in s
    ensures |CText(s)| < |s|
  {
    if s[0] != NUL {
      TextCut(s[1..]);
    }
  }

  lemma {:induction false} CollectedClean(d: Declared, octets: seq<Bytes>)
    ensures |Collected(d, octets)| <= |Flatten(octets)|
    ensures Clean(d, octets) ==> Collected(d, octets) == Flatten(octets)
    ensures !Clean(d, octets) ==> |Collected(d, octets)| < |Flatten(octets)|
  {
    hide Added;
    if octets != [] {
      AddedShorter(d, octets[0]);
      CollectedClean(d, octets[1..]);
    }
  }

  lemma {:induction false} FlattenUpTo(octets: seq<Bytes>, i: nat)
    requires i <= |octets|
    ensures Flatten(octets[..i]) <= Flatten(octets)
  {
    if i == 0 {
      assert octets[..0] == [];
    } else {
      FlattenUpTo(octets[1..], i - 1);
      assert octets[..i][1..] == octets[1..][..i - 1];
    }
  }

  lemma UpTo(d: Declared, octets: seq<Bytes>, i: nat, j: nat)
    requires i <= j <= |octets|
    ensures Flatten(octets[..i]) <= Flatten(octets[..j])
    ensures Clean(d, octets) ==> Clean(d, octets[..i])
  {
    FlattenUpTo(octets, i);
    FlattenUpTo(octets[..j], i);
    assert octets[..j][..i] == octets[..i];
  }

  /** The conditions under which the body is answered whole. */
  predicate InTime(d: Declared, octets: seq<Bytes>)
    requires octets != []
  {
    var front := |Flatten(octets[..|octets| - 1])|;
    && Clean(d, octets)
    && (|octets| > 1 ==> front < d.length)
    && (d.multipart || front <= MAX_FORM)
  }

  /** Main result: when the Content-Length is that of the body, the stream closes behind an answer to the whole body if
      and only if a form has no NUL, the frame with END_STREAM is the one that completes the body, and a form is not
      past its maximum in front of it. */
  lemma PostAnsweredWhole(d: Declared, octets: seq<Bytes>)
    requires octets != [] && d.length == |Flatten(octets)| < TWO_64
    ensures AfterAll(Idle, RunActs(Idle, PostFrames(d, octets))) == Closed
            && AnsweredWith(d, [], octets) == Some(Flatten(octets))
       <==> InTime(d, octets)
  {
    hide AfterAll, RunActs, PostFrames, AnsweredAt, AnsweredWith, LastBody;
    PostCloses(d, octets);
    if InTime(d, octets) {
      InTimeAnswers(d, octets);
      LastAnswered(d, [], octets);
    } else if AnsweredAt(d, [], octets, |octets| - 1) && Quiet(d, octets) {
      LastAnswered(d, [], octets);
      if LastBody(d, [], octets) == Flatten(octets) {
        WholeInTime(d, octets);
      }
    }
  }

  lemma InTimeAnswers(d: Declared, octets: seq<Bytes>)
    requires octets != [] && d.length == |Flatten(octets)| < TWO_64 && InTime(d, octets)
    ensures Quiet(d, octets) && AnsweredAt(d, [], octets, |octets| - 1)
    ensures LastBody(d, [], octets) == Flatten(octets)
  {
    hide Collected, Flatten;
    var n := |octets|;
    forall i | 0 <= i <= n
      ensures [] + Collected(d, octets[..i]) == Flatten(octets[..i])
      ensures i < n ==> |Flatten(octets[..i])| <= |Flatten(octets[..n - 1])|
    {
      UpTo(d, octets, i, n);
      CollectedClean(d, octets[..i]);
      if i < n {
        UpTo(d, octets, i, n - 1);
      }
    }
    assert octets[..n] == octets;
  }

  lemma WholeInTime(d: Declared, octets: seq<Bytes>)
    requires octets != [] && d.length == |Flatten(octets)| < TWO_64
    requires Quiet(d, octets) && LastBody(d, [], octets) == Flatten(octets)
    ensures InTime(d, octets)
  {
    hide Collected, Flatten, Clean;
    var n := |octets|;
    var front := octets[..n - 1];
    CollectedClean(d, octets);
    CollectedClean(d, front);
    UpTo(d, octets, n - 1, n);
    assert octets[..n] == octets;
    assert [] + Collected(d, front) == Collected(d, front) && [] + Collected(d, octets) == Collected(d, octets);
    if n > 1 {
      assert !AnsweredAt(d, [], octets, n - 2);
      assert octets[..n - 2 + 1] == front;
    } else {
      NoneCollected(d, front);
    }
  }

  lemma NoneCollected(d: Declared, octets: seq<Bytes>)
    requires octets == []
    ensures Collected(d, octets) == [] && Flatten(octets) == []
  {
  }
}
