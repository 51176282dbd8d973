/** Reading form fields (`name=value&name=value`), with the trimming of names that it uses. */
module FormVars {
  import opened CStrings
  import opened Octets
  import opened UrlFormat

  const AMP: Octet := '&' as int
  const EQ: Octet := '=' as int
  const TAB: Octet := 9

  // ---- _strtrim_ ----

  /** `src.erase(0, src.find_first_not_of(c))`. */
  function DropLead(s: Text, c: Octet): (r: Text)
    ensures |r| <= |s|
    ensures r == [] || r[0] != c
  {
    if s != [] && s[0] == c then DropLead(s[1..], c) else s
  }

  /** The matching cut at the end, which leaves a string of nothing but `c` alone. */
  function DropTail(s: Text, c: Octet): (r: Text)
    ensures |r| <= |s|
    ensures s != [] && s[|s| - 1] != c ==> r == s
  {
    if s == [] || s[|s| - 1] != c then s
    else if forall i | 0 <= i < |s| :: s[i] == c then s
    else DropTail(s[..|s| - 1], c)
  }

  function LeadPass(s: Text): (r: Text)
    ensures |r| <= |s|
  {
    DropLead(DropLead(DropLead(DropLead(s, SPACE), TAB), CR), LF)
  }

  function TailPass(s: Text): (r: Text)
    ensures |r| <= |s|
  {
    DropTail(DropTail(DropTail(DropTail(s, SPACE), TAB), CR), LF)
  }

  /** Another pass is made only when this one removed blanks proper and something was left of them. */
  predicate LeadAgain(s: Text) {
    DropLead(s, SPACE) != s && DropLead(s, SPACE) != []
  }

  function TrimLead(s: Text): Text
    decreases |s|
  {
    if LeadAgain(s) then
      DropLeadShorter(s, SPACE);
      TrimLead(LeadPass(s))
    else LeadPass(s)
  }

  lemma DropLeadShorter(s: Text, c: Octet)
    ensures DropLead(s, c) != s ==> |DropLead(s, c)| < |s|
  {
  }

  lemma DropTailShorter(s: Text, c: Octet)
    ensures DropTail(s, c) != s ==> |DropTail(s, c)| < |s|
  {
  }

  lemma TailPassShorter(s: Text)
    ensures TailPass(s) != s ==> |TailPass(s)| < |s|
  {
    var a := DropTail(s, SPACE);
    var b := DropTail(a, TAB);
    DropTailShorter(s, SPACE);
    DropTailShorter(a, TAB);
    DropTailShorter(b, CR);
    DropTailShorter(DropTail(b, CR), LF);
  }

  function TrimTail(s: Text): Text
    decreases |s|
  {
    if TailPass(s) != s then
      TailPassShorter(s);
      TrimTail(TailPass(s))
    else s
  }

  function StrTrim(s: Text): Text {
    TrimTail(TrimLead(s))
  }

  method Trim(src: Text) returns (r: Text)
    ensures r == StrTrim(src)
  {
    hide DropLead, DropTail, TrimLead, TrimTail;
    r := src;
    var exit := false;
    while !exit
      invariant (if exit then r else TrimLead(r)) == TrimLead(src)
      decreases !exit, |r|
    {
      TrimLeadOnce(r);
      exit := true;
      var a := DropLead(r, SPACE);
      if a != r && a != [] {
        exit := false;
      }
      r := DropLead(DropLead(DropLead(a, TAB), CR), LF);
    }
    ghost var mid := r;
    exit := false;
    while !exit
      invariant (if exit then r else TrimTail(r)) == TrimTail(mid)
      decreases !exit, |r|
    {
      TrimTailOnce(r);
      exit := true;
      var a := DropTail(r, SPACE);
      var b := DropTail(a, TAB);
      var c := DropTail(b, CR);
      var d := DropTail(c, LF);
      DropTailShorter(r, SPACE);
      DropTailShorter(a, TAB);
      DropTailShorter(b, CR);
      DropTailShorter(c, LF);
      if a != r || b != a || c != b || d != c {
        exit := false;
      }
      r := d;
    }
  }

  lemma TrimLeadOnce(s: Text)
    ensures TrimLead(s) == if LeadAgain(s) then TrimLead(LeadPass(s)) else LeadPass(s)
    ensures LeadAgain(s) ==> |LeadPass(s)| < |s|
  {
    DropLeadShorter(s, SPACE);
  }

  lemma TrimTailOnce(s: Text)
    ensures TrimTail(s) == if TailPass(s) != s then TrimTail(TailPass(s)) else s
  {
  }

  predicate Blank(c: Octet) {
    c == SPACE || c == TAB || c == CR || c == LF
  }

  /** What trimming leaves alone. */
  predicate Trimmed(s: Text) {
    s != [] && !Blank(s[0]) && !Blank(s[|s| - 1])
  }

  lemma TrimmedKept(s: Text)
    requires s == [] || Trimmed(s)
    ensures StrTrim(s) == s
  {
    assert LeadPass(s) == s;
    assert TailPass(s) == s;
  }

  // ---- What trimming removes ----

  predicate AllBlank(s: Text) {
    forall i | 0 <= i < |s| :: Blank(s[i])
  }

  lemma {:induction false} DropTailBlank(s: Text, c: Octet)
    requires s != [] && !Blank(s[0]) && Blank(c)
    ensures DropTail(s, c) == if s[|s| - 1] == c then DropTail(s[..|s| - 1], c) else s
    ensures DropTail(s, c) <= s && DropTail(s, c) != [] && DropTail(s, c)[0] == s[0]
    decreases |s|
  {
    if s[|s| - 1] == c {
      assert s[0] != c;
      DropTailBlank(s[..|s| - 1], c);
    }
  }

  /** Nothing but the octet goes. */
  lemma {:induction false} DropTailWhole(s: Text, c: Octet, t: Text)
    requires t != [] && t <= s && !Blank(t[0]) && !Blank(t[|t| - 1]) && Blank(c)
    ensures t <= DropTail(s, c)
    decreases |s|
  {
    DropTailBlank(s, c);
    if s[|s| - 1] == c {
      assert s != t;
      DropTailWhole(s[..|s| - 1], c, t);
    }
  }

  lemma TailPassEnds(s: Text, t: Text)
    requires t != [] && t <= s && !Blank(t[0]) && !Blank(t[|t| - 1])
    ensures var r := TailPass(s);
            && t <= r <= s
            && (r == s ==> !Blank(s[|s| - 1]))
  {
    hide DropTail;
    var a := DropTail(s, SPACE);
    DropTailWhole(s, SPACE, t);
    DropTailBlank(s, SPACE);
    var b := DropTail(a, TAB);
    DropTailWhole(a, TAB, t);
    DropTailBlank(a, TAB);
    var c := DropTail(b, CR);
    DropTailWhole(b, CR, t);
    DropTailBlank(b, CR);
    DropTailWhole(c, LF, t);
    DropTailBlank(c, LF);
    if TailPass(s) == s {
      assert a == s && b == s && c == s;
      NoneDropped(s, SPACE);
      NoneDropped(s, TAB);
      NoneDropped(s, CR);
      NoneDropped(s, LF);
    }
  }

  lemma NoneDropped(s: Text, c: Octet)
    requires s != [] && !Blank(s[0]) && Blank(c) && DropTail(s, c) == s
    ensures s[|s| - 1] != c
  {
    DropTailBlank(s, c);
  }

  /** All blanks behind a text go, in whatever order they come. */
  lemma {:induction false} TailTrimmed(t: Text, b: Text)
    requires t != [] && !Blank(t[0]) && !Blank(t[|t| - 1]) && AllBlank(b)
    ensures TrimTail(t + b) == t
    decreases |b|
  {
    hide DropTail, TailPass, TrimTail;
    var s := t + b;
    TrimTailOnce(s);
    assert b != [] ==> s[|s| - 1] == b[|b| - 1];
    TailPassEnds(s, t);
    var r := TailPass(s);
    if r != s {
      var n := |r| - |t|;
      assert r == s[..|r|] == t + b[..n];
      TailTrimmed(t, b[..n]);
    } else {
      assert s == t;
    }
  }

  /** The order in which a pass takes blanks off the front. */
  function Rank(c: Octet): nat {
    if c == SPACE then 0 else if c == TAB then 1 else if c == CR then 2 else 3
  }

  /** A blank that a pass that has come this far no longer takes. */
  predicate Descends(a: Text, k: int) {
    0 < k < |a| && Rank(a[k - 1]) > Rank(a[k])
  }

  /** Every pass but the last begins with a space. */
  predicate Peelable(a: Text) {
    forall j, k | 0 <= j < k < |a| && (j == 0 || Descends(a, j)) && Descends(a, k) :: a[j] == SPACE
  }

  /** Taking one octet off the front gets as far as it goes on. */
  lemma {:induction false} RunFrom(s: Text, from: nat, c: Octet) returns (to: nat)
    requires from <= |s|
    ensures from <= to <= |s| && DropLead(s[from..], c) == s[to..]
    ensures forall i | from <= i < to :: s[i] == c
    ensures to < |s| ==> s[to] != c
    decreases |s| - from
  {
    to := from;
    if from < |s| && s[from] == c {
      assert s[from..][1..] == s[from + 1..];
      to := RunFrom(s, from + 1, c);
    }
  }

  /** How far a pass gets: to the first blank out of order, or to the end of the blanks. */
  lemma PassEnds(a: Text, t: Text) returns (n: nat)
    requires a != [] && AllBlank(a) && t != [] && !Blank(t[0])
    ensures 0 < n <= |a| && LeadPass(a + t) == (a + t)[n..]
    ensures forall k | 0 < k < n :: !Descends(a, k)
    ensures n < |a| ==> Descends(a, n)
    ensures LeadAgain(a + t) <==> a[0] == SPACE
  {
    hide DropLead, Descends, AllBlank, Blank;
    var s := a + t;
    assert s[0..] == s;
    var n1 := RunFrom(s, 0, SPACE);
    var n2 := RunFrom(s, n1, TAB);
    var n3 := RunFrom(s, n2, CR);
    n := RunFrom(s, n3, LF);
    PassInside(a, t, n1, n2, n3, n);
    assert s[n1..] != s <==> n1 > 0 by {
      assert |s[n1..]| == |s| - n1;
    }
  }

  lemma PassInside(a: Text, t: Text, n1: nat, n2: nat, n3: nat, n: nat)
    requires a != [] && AllBlank(a) && t != [] && !Blank(t[0]) && n1 <= n2 <= n3 <= n <= |a + t|
    requires var s := a + t;
             && (forall i | 0 <= i < n1 :: s[i] == SPACE) && (forall i | n1 <= i < n2 :: s[i] == TAB)
             && (forall i | n2 <= i < n3 :: s[i] == CR) && (forall i | n3 <= i < n :: s[i] == LF)
             && (n1 < |s| ==> s[n1] != SPACE) && (n2 < |s| ==> s[n2] != TAB)
             && (n3 < |s| ==> s[n3] != CR) && (n < |s| ==> s[n] != LF)
    ensures 0 < n <= |a| && (forall k | 0 < k < n :: !Descends(a, k)) && (n < |a| ==> Descends(a, n))
    ensures n1 < |a + t| && (n1 > 0 <==> a[0] == SPACE)
  {
    var s := a + t;
    assert s[|a|] == t[0];
    assert forall i | 0 <= i < |a| :: s[i] == a[i];
  }

  lemma PeelShift(a: Text, n: nat)
    requires 0 < n < |a| && Descends(a, n) && forall k | 0 < k < n :: !Descends(a, k)
    ensures Peelable(a) <==> a[0] == SPACE && Peelable(a[n..])
  {
    var b := a[n..];
    assert forall k | 0 < k < |b| :: Descends(b, k) <==> Descends(a, n + k);
    if Peelable(a) {
      forall j, k | 0 <= j < k < |b| && (j == 0 || Descends(b, j)) && Descends(b, k)
        ensures b[j] == SPACE
      {
        assert Descends(a, n + k) && Descends(a, n + j) && a[n + j] == b[j];
      }
    }
    if a[0] == SPACE && Peelable(b) {
      forall j, k | 0 <= j < k < |a| && (j == 0 || Descends(a, j)) && Descends(a, k)
        ensures a[j] == SPACE
      {
        if j > 0 {
          assert j >= n && k > n;
          assert Descends(b, k - n) && (j == n || Descends(b, j - n)) && b[j - n] == a[j];
        }
      }
    }
  }

  /** The blanks in front of a text go, as far as they can be taken off in passes of spaces, tabs, carriage returns and
      line feeds, in this order, each but the last with a space. */
  lemma {:induction false} LeadTrimmed(a: Text, t: Text) returns (n: nat)
    requires AllBlank(a) && t != [] && !Blank(t[0])
    ensures n <= |a| && TrimLead(a + t) == a[n..] + t && (n == |a| <==> Peelable(a))
    decreases |a|
  {
    hide LeadPass, LeadAgain, Rank, Peelable;
    TrimLeadOnce(a + t);
    if a == [] {
      NothingToTrim(t);
      assert a + t == t && a[0..] + t == t;
      NothingToPeel(a);
      n := 0;
    } else {
      n := PassEnds(a, t);
      var b := a[n..];
      assert (a + t)[n..] == b + t;
      if n == |a| {
        assert b + t == t;
        NothingToTrim(t);
        OnePass(a);
        TrimLeadOnce(t);
      } else {
        PeelShift(a, n);
        if a[0] == SPACE {
          var m := LeadTrimmed(b, t);
          assert b[m..] == a[n + m..];
          n := n + m;
        }
      }
    }
  }

  lemma OnePass(a: Text)
    requires forall k | 0 < k < |a| :: !Descends(a, k)
    ensures Peelable(a)
  {
  }

  lemma NothingToPeel(a: Text)
    requires a == []
    ensures Peelable(a)
  {
  }

  lemma NothingToTrim(t: Text)
    requires t != [] && !Blank(t[0])
    ensures LeadPass(t) == t && !LeadAgain(t)
  {
  }

  lemma {:induction false} DropTailPrefix(s: Text, c: Octet)
    ensures DropTail(s, c) <= s
  {
    if s != [] && s[|s| - 1] == c && !(forall i | 0 <= i < |s| :: s[i] == c) {
      DropTailPrefix(s[..|s| - 1], c);
    }
  }

  lemma {:induction false} TrimTailPrefix(s: Text)
    ensures TrimTail(s) <= s
    decreases |s|
  {
    hide DropTail, TrimTail;
    TrimTailOnce(s);
    var a := DropTail(s, SPACE);
    var b := DropTail(a, TAB);
    DropTailPrefix(s, SPACE);
    DropTailPrefix(a, TAB);
    DropTailPrefix(b, CR);
    DropTailPrefix(DropTail(b, CR), LF);
    if TailPass(s) != s {
      TailPassShorter(s);
      TrimTailPrefix(TailPass(s));
    }
  }

  /** Main result for `_strtrim_`: of a text with blanks around it, all blanks behind it go, and those in front of it if
      and only if they come in that order. */
  lemma TrimExactly(a: Text, t: Text, b: Text)
    requires AllBlank(a) && AllBlank(b) && Trimmed(t)
    ensures StrTrim(a + t + b) == t <==> Peelable(a)
  {
    hide TrimLead, TrimTail, Peelable;
    assert a + t + b == a + (t + b);
    var n := LeadTrimmed(a, t + b);
    if n == |a| {
      assert a[n..] + (t + b) == t + b;
      TailTrimmed(t, b);
    } else {
      var s := a[n..] + (t + b);
      assert s[0] == a[n];
      TrimTailPrefix(s);
    }
  }

  // ---- NIU_POST_GET_VARS ----

  datatype Var = Var(name: Text, value: Bytes)

  /** The loop's variables; `vars` are the assignments made to the map so far. */
  datatype Scanner = Scanner(inValue: bool, key: Text, value: Text, value2: Bytes, vars: seq<Var>)

  const START := Scanner(false, [], [], [], [])

  /** At a separator.  `value2` keeps what was decoded last; `value` is cleared only with a name. */
  function Flush(m: Scanner, little: bool): Option<Scanner> {
    var key := StrTrim(m.key);
    if key == [] then Some(m.(inValue := false, key := []))
    else
      var decoded := if m.value != [] then DecodeFrom(m.value, 0, little) else Some(m.value2);
      if decoded.None? then None
      else Some(Scanner(false, [], [], decoded.value, m.vars + [Var(key, decoded.value)]))
  }

  function Feed(m: Scanner, c: Octet, little: bool): Option<Scanner> {
    if c == AMP || c == NUL then Flush(m, little)
    else if c == EQ then Some(m.(inValue := true))
    else if m.inValue then Some(m.(value := m.value + [c]))
    else Some(m.(key := m.key + [c]))
  }

  function FeedAll(m: Scanner, s: Bytes, little: bool): Option<Scanner>
    decreases |s|
  {
    if s == [] then Some(m)
    else
      var n := Feed(m, s[0], little);
      if n.None? then None else FeedAll(n.value, s[1..], little)
  }

  function MapOf(vars: seq<Var>): map<Bytes, Bytes> {
    if vars == [] then map[]
    else MapOf(vars[..|vars| - 1])[vars[|vars| - 1].name := vars[|vars| - 1].value]
  }

  /** The assignments made for a query or a body; `None` when decoding a value reads behind its end. */
  function Assignments(data: Text, little: bool): Option<seq<Var>> {
    var m := FeedAll(START, data + [NUL], little);
    if m.None? then None else Some(m.value.vars)
  }

  method PostGetVars(data: Text, little: bool) returns (varmap: Option<map<Bytes, Bytes>>)
    ensures Assignments(data, little).None? ==> varmap.None?
    ensures Assignments(data, little).Some? ==> varmap == Some(MapOf(Assignments(data, little).value))
  {
    hide FeedAll, DecodeFrom, StrTrim, MapOf;
    var inValue := false;
    var vars: map<Bytes, Bytes> := map[];
    var key: Text, value: Text, value2: Bytes := [], [], [];
    ghost var log: seq<Var> := [];
    ghost var whole := data + [NUL];
    var x := 0;
    MapOfNone();
    assert whole[0..] == whole;
    while x <= |data|
      invariant x <= |whole|
      invariant vars == MapOf(log)
      invariant FeedAll(Scanner(inValue, key, value, value2, log), whole[x..], little)
             == FeedAll(START, whole, little)
    {
      FeedOnce(Scanner(inValue, key, value, value2, log), whole[x..], little);
      assert whole[x..][1..] == whole[x + 1..];
      var c := At(data, x);
      if c == AMP || c == NUL {
        key := Trim(key);
        if key != [] {
          if value != [] {
            var decoded := UrlDecode(value, little);
            if decoded.None? {
              return None;
            }
            value2 := decoded.value;
          }
          vars := vars[key := value2];
          MapOfPush(log, Var(key, value2));
          log := log + [Var(key, value2)];
          key, value := [], [];
        }
        inValue := false;
      } else if c == EQ {
        inValue := true;
      } else if inValue {
        value := value + [c];
      } else {
        key := key + [c];
      }
      x := x + 1;
    }
    assert whole[x..] == [];
    FeedOnce(Scanner(inValue, key, value, value2, log), [], little);
    return Some(vars);
  }

  lemma FeedOnce(m: Scanner, s: Bytes, little: bool)
    ensures s == [] ==> FeedAll(m, s, little) == Some(m)
    ensures s != [] ==>
              FeedAll(m, s, little)
                == if Feed(m, s[0], little).None? then None else FeedAll(Feed(m, s[0], little).value, s[1..], little)
  {
  }

  lemma MapOfNone()
    ensures MapOf([]) == map[]
  {
  }

  lemma MapOfPush(vars: seq<Var>, v: Var)
    ensures MapOf(vars + [v]) == MapOf(vars)[v.name := v.value]
  {
    assert (vars + [v])[..|vars|] == vars;
  }

  // ---- Composition ----

  datatype Field = Field(name: Text, value: Text)

  /** An encoded C string, which is one again. */
  function Encoded(s: Text, little: bool): (e: Text)
    ensures e == [] <==> s == []
    ensures AMP !in e && EQ !in e
    ensures e != [] ==> Trimmed(e)
  {
    EncodedKept(s, little);
    EncodeFrom(s, 0, little)
  }

  lemma EncodedKept(s: Text, little: bool)
    ensures var e := EncodeFrom(s, 0, little);
            && NUL !in e && AMP !in e && EQ !in e
            && (e == [] <==> s == [])
            && (e != [] ==> Trimmed(e))
  {
    hide EncodeFrom;
    EncodedIsSafe(s, 0, little);
    EncodedEmpty(s, little);
    var e := EncodeFrom(s, 0, little);
    if e != [] {
      assert e[0] in e && e[|e| - 1] in e;
    }
  }

  /** Name and value of a field are both encoded. */
  function FieldText(f: Field, little: bool): Bytes {
    Encoded(f.name, little) + [EQ] + Encoded(f.value, little)
  }

  predicate Named(fields: seq<Field>) {
    forall i | 0 <= i < |fields| :: fields[i].name != []
  }

  function Compose(fields: seq<Field>, little: bool): Bytes {
    if fields == [] then []
    else if |fields| == 1 then FieldText(fields[0], little)
    else FieldText(fields[0], little) + [AMP] + Compose(fields[1..], little)
  }

  /** What is assigned for a list of fields, when `last` was the value before.  Names are stored as they come. */
  function Assigned(fields: seq<Field>, last: Bytes, little: bool): (r: seq<Var>)
    ensures |r| == |fields|
    decreases |fields|
  {
    if fields == [] then []
    else
      var v := if fields[0].value == [] then last else Padded(fields[0].value);
      [Var(Encoded(fields[0].name, little), v)] + Assigned(fields[1..], v, little)
  }

  lemma {:induction false} FeedAppend(m: Scanner, a: Bytes, b: Bytes, little: bool)
    ensures FeedAll(m, a + b, little)
         == if FeedAll(m, a, little).None? then None else FeedAll(FeedAll(m, a, little).value, b, little)
    decreases |a|
  {
    hide Feed;
    if a == [] {
      assert a + b == b;
    } else {
      assert (a + b)[1..] == a[1..] + b;
      var n := Feed(m, a[0], little);
      if n.Some? {
        FeedAppend(n.value, a[1..], b, little);
      }
    }
  }

  /** Octets without separators are collected. */
  lemma {:induction false} Collect(m: Scanner, s: Text, little: bool)
    requires AMP !in s && EQ !in s
    ensures FeedAll(m, s, little)
         == Some(if m.inValue then m.(value := m.value + s) else m.(key := m.key + s))
    decreases |s|
  {
    if s == [] {
      assert m.value + s == m.value && m.key + s == m.key;
    } else {
      assert m.value + [s[0]] + s[1..] == m.value + s && m.key + [s[0]] + s[1..] == m.key + s;
      Collect(Feed(m, s[0], little).value, s[1..], little);
    }
  }

  lemma EncodedEmpty(v: Text, little: bool)
    ensures EncodeFrom(v, 0, little) == [] <==> v == []
  {
    if v != [] {
      assert Unit(v, 0, little) != [];
    }
  }

  /** Before the separator of a field, whatever value a nameless field has left. */
  lemma FieldScanned(f: Field, value: Text, value2: Bytes, vars: seq<Var>, little: bool)
    ensures FeedAll(Scanner(false, [], value, value2, vars), FieldText(f, little), little)
         == Some(Scanner(true, Encoded(f.name, little), value + Encoded(f.value, little), value2, vars))
  {
    hide FeedAll, Encoded;
    var n, e := Encoded(f.name, little), Encoded(f.value, little);
    var m0 := Scanner(false, [], value, value2, vars);
    Collect(m0, n, little);
    var m1 := m0.(key := n);
    assert [] + n == n;
    FeedOnce(m1, [EQ], little);
    var m2 := m1.(inValue := true);
    FeedOnce(m2, [], little);
    Collect(m2, e, little);
    FeedAppend(m0, n, [EQ], little);
    assert FeedAll(m1, [EQ], little) == Some(m2) by {
      assert [EQ][1..] == [];
    }
    FeedAppend(m0, n + [EQ], e, little);
  }

  lemma FieldFlushed(f: Field, sep: Octet, value: Text, value2: Bytes, vars: seq<Var>, little: bool)
    requires sep == AMP || sep == NUL
    ensures FeedAll(Scanner(false, [], value, value2, vars), FieldText(f, little) + [sep], little)
         == Flush(Scanner(true, Encoded(f.name, little), value + Encoded(f.value, little), value2, vars),
                  little)
  {
    hide FeedAll, Encoded, Flush;
    FieldScanned(f, value, value2, vars, little);
    var m0 := Scanner(false, [], value, value2, vars);
    var m3 := FeedAll(m0, FieldText(f, little), little).value;
    FeedAppend(m0, FieldText(f, little), [sep], little);
    FeedOnce(m3, [sep], little);
    assert [sep][1..] == [];
    var m4 := Flush(m3, little);
    if m4.Some? {
      FeedOnce(m4.value, [], little);
    }
  }

  /** One field with a name and the separator behind it make one assignment. */
  lemma FieldFed(f: Field, sep: Octet, value2: Bytes, vars: seq<Var>, little: bool)
    requires f.name != [] && (sep == AMP || sep == NUL)
    ensures var v := if f.value == [] then value2 else Padded(f.value);
            FeedAll(Scanner(false, [], [], value2, vars), FieldText(f, little) + [sep], little)
              == Some(Scanner(false, [], [], v, vars + [Var(Encoded(f.name, little), v)]))
  {
    hide FeedAll, EncodeFrom, DecodeFrom, StrTrim, Padded, HighRun;
    var e := Encoded(f.value, little);
    FieldFlushed(f, sep, [], value2, vars, little);
    TrimmedKept(Encoded(f.name, little));
    DecodeUndoesEncode(f.value, little);
    assert [] + e == e;
  }

  lemma ComposeOnce(fields: seq<Field>, little: bool)
    requires |fields| > 1
    ensures Compose(fields, little) + [NUL]
         == FieldText(fields[0], little) + [AMP] + (Compose(fields[1..], little) + [NUL])
  {
    hide FieldText;
  }

  lemma Regrouped(a: seq<Var>, v: Var, b: seq<Var>)
    ensures a + ([v] + b) == a + [v] + b
  {
  }

  lemma {:induction false} FieldsFed(fields: seq<Field>, value2: Bytes, vars: seq<Var>, little: bool)
    requires Named(fields) && fields != []
    ensures var m := FeedAll(Scanner(false, [], [], value2, vars), Compose(fields, little) + [NUL], little);
            m.Some? && m.value.vars == vars + Assigned(fields, value2, little)
    decreases |fields|
  {
    hide FeedAll, Padded, FieldText, Encoded, Feed;
    var f := fields[0];
    var v := if f.value == [] then value2 else Padded(f.value);
    var n := Encoded(f.name, little);
    var m0 := Scanner(false, [], [], value2, vars);
    var m1 := Scanner(false, [], [], v, vars + [Var(n, v)]);
    if |fields| == 1 {
      FieldFed(f, NUL, value2, vars, little);
      assert fields[1..] == [];
    } else {
      FieldFed(f, AMP, value2, vars, little);
      var rest := Compose(fields[1..], little) + [NUL];
      FeedAppend(m0, FieldText(f, little) + [AMP], rest, little);
      ComposeOnce(fields, little);
      FieldsFed(fields[1..], v, m1.vars, little);
      Regrouped(vars, Var(n, v), Assigned(fields[1..], v, little));
    }
  }

  // ---- Names of spaces ----

  lemma {:induction false} SpacesDropped(blanks: Text)
    requires forall i | 0 <= i < |blanks| :: blanks[i] == SPACE
    ensures DropLead(blanks, SPACE) == []
  {
    if blanks != [] {
      SpacesDropped(blanks[1..]);
    }
  }

  lemma SpacesTrimmed(blanks: Text)
    requires forall i | 0 <= i < |blanks| :: blanks[i] == SPACE
    ensures StrTrim(blanks) == []
  {
    SpacesDropped(blanks);
    assert LeadPass(blanks) == [] && TailPass([]) == [];
  }

  /** A field that is nothing but spaces is skipped and leaves nothing behind. */
  lemma SpacesSkipped(blanks: Text, rest: Bytes, value: Text, value2: Bytes, vars: seq<Var>, little: bool)
    requires (forall i | 0 <= i < |blanks| :: blanks[i] == SPACE) && AMP !in blanks && EQ !in blanks
    ensures var m := Scanner(false, [], value, value2, vars);
            FeedAll(m, blanks + ([AMP] + rest), little) == FeedAll(m, rest, little)
  {
    hide FeedAll, StrTrim;
    var m := Scanner(false, [], value, value2, vars);
    FeedAppend(m, blanks, [AMP] + rest, little);
    Collect(m, blanks, little);
    assert [] + blanks == blanks;
    SpacesTrimmed(blanks);
    FeedOnce(m.(key := blanks), [AMP] + rest, little);
    assert ([AMP] + rest)[1..] == rest;
  }

  // ---- Nameless fields ----

  /** A field makes no more than one assignment, and none without a name. */
  lemma AtMostOne(f: Field, sep: Octet, value: Text, value2: Bytes, vars: seq<Var>, little: bool)
    requires sep == AMP || sep == NUL
    ensures var m := FeedAll(Scanner(false, [], value, value2, vars), FieldText(f, little) + [sep], little);
            m.Some? ==>
              && !m.value.inValue && m.value.key == []
              && |m.value.vars| <= |vars| + if f.name == [] then 0 else 1
  {
    hide FeedAll, Encoded, DecodeFrom, StrTrim, FieldText;
    FieldFlushed(f, sep, value, value2, vars, little);
    TrimmedKept(Encoded(f.name, little));
  }

  lemma {:induction false} TooFew(fields: seq<Field>, value: Text, value2: Bytes, vars: seq<Var>, little: bool)
    requires fields != []
    ensures var m := FeedAll(Scanner(false, [], value, value2, vars), Compose(fields, little) + [NUL], little);
            m.Some? ==>
              && |m.value.vars| <= |vars| + |fields|
              && (!Named(fields) ==> |m.value.vars| < |vars| + |fields|)
    decreases |fields|
  {
    hide FeedAll, FieldText;
    var f := fields[0];
    var m0 := Scanner(false, [], value, value2, vars);
    if |fields| == 1 {
      AtMostOne(f, NUL, value, value2, vars, little);
    } else {
      AtMostOne(f, AMP, value, value2, vars, little);
      var rest := Compose(fields[1..], little) + [NUL];
      FeedAppend(m0, FieldText(f, little) + [AMP], rest, little);
      ComposeOnce(fields, little);
      var m1 := FeedAll(m0, FieldText(f, little) + [AMP], little);
      if m1.Some? {
        TooFew(fields[1..], m1.value.value, m1.value.value2, m1.value.vars, little);
        NamedCons(fields);
      }
    }
  }

  lemma NamedCons(fields: seq<Field>)
    requires fields != []
    ensures Named(fields) <==> fields[0].name != [] && Named(fields[1..])
  {
    if Named(fields[1..]) {
      assert forall i | 1 <= i < |fields| :: fields[i] == fields[1..][i - 1];
    }
  }

  /** The value of a field without a name stays in front of that of the next field. */
  lemma NamelessCarries(f: Field, sep: Octet, value: Text, value2: Bytes, vars: seq<Var>, little: bool)
    requires f.name == [] && (sep == AMP || sep == NUL)
    ensures FeedAll(Scanner(false, [], value, value2, vars), FieldText(f, little) + [sep], little)
         == Some(Scanner(false, [], value + EncodeFrom(f.value, 0, little), value2, vars))
  {
    hide FeedAll, StrTrim, FieldText;
    FieldFlushed(f, sep, value, value2, vars, little);
    TrimmedKept([]);
  }

  /** An equals sign inside a value is dropped. */
  lemma EqualsDropped(name: Text, front: Text, back: Bytes, value2: Bytes, vars: seq<Var>, little: bool)
    requires AMP !in name && EQ !in name && AMP !in front && EQ !in front
    ensures var m := Scanner(false, [], [], value2, vars);
            FeedAll(m, name + ([EQ] + (front + ([EQ] + back))), little)
              == FeedAll(m, name + ([EQ] + (front + back)), little)
  {
    hide FeedAll;
    var m := Scanner(false, [], [], value2, vars);
    Collect(m, name, little);
    var m1 := m.(key := [] + name);
    var m2 := m1.(inValue := true);
    var m3 := m2.(value := [] + front);
    Collect(m2, front, little);
    forall tail: Bytes
      ensures FeedAll(m, name + ([EQ] + (front + tail)), little) == FeedAll(m3, tail, little)
    {
      FeedAppend(m, name, [EQ] + (front + tail), little);
      FeedOnce(m1, [EQ] + (front + tail), little);
      assert ([EQ] + (front + tail))[1..] == front + tail;
      FeedAppend(m2, front, tail, little);
    }
    FeedOnce(m3, [EQ] + back, little);
    assert ([EQ] + back)[1..] == back;
  }

  // ---- Names ----

  predicate AllLiteral(s: Text) {
    forall i | 0 <= i < |s| :: Literal(s[i])
  }

  /** What one turn of the encoder writes, and how much. */
  lemma UnitShape(s: Text, x: nat, little: bool)
    requires x < |s|
    ensures |Unit(s, x, little)| >= Taken(s[x])
    ensures Literal(s[x]) ==> Unit(s, x, little) == [s[x]] && Taken(s[x]) == 1
    ensures !Literal(s[x]) && s[x] != SPACE ==> |Unit(s, x, little)| > Taken(s[x])
    ensures s[x] == SPACE ==> !Literal(s[x]) && Unit(s, x, little) == [PLUS]
  {
    hide Hex;
  }

  lemma {:induction false} EncodedLength(s: Text, x: nat, little: bool)
    ensures |EncodeFrom(s, x, little)| >= if x < |s| then |s| - x else 0
    decreases |s| - x
  {
    hide Literal, Unit, EncodeFrom;
    EncodeOnce(s, x, little);
    if x < |s| {
      UnitShape(s, x, little);
      EncodedLength(s, x + Taken(s[x]), little);
    }
  }

  lemma NotSame(s: Text, x: nat, little: bool)
    requires x < |s| && !Literal(s[x])
    ensures EncodeFrom(s, x, little) != s[x..]
  {
    hide Literal, Unit, EncodeFrom;
    var next := x + Taken(s[x]);
    var unit, rest := Unit(s, x, little), EncodeFrom(s, next, little);
    EncodeOnce(s, x, little);
    UnitShape(s, x, little);
    EncodedLength(s, next, little);
    if s[x] == SPACE {
      assert (unit + rest)[0] == PLUS && s[x..][0] == SPACE;
    } else {
      assert |unit + rest| > |s[x..]|;
    }
  }

  /** A text is its own encoding exactly when all its octets stand for themselves. */
  lemma {:induction false} EncodedSame(s: Text, x: nat, little: bool)
    requires x <= |s|
    ensures EncodeFrom(s, x, little) == s[x..] <==> AllLiteral(s[x..])
    decreases |s| - x
  {
    hide Literal, EncodeFrom, Unit, AllLiteral;
    EncodeOnce(s, x, little);
    if x < |s| {
      LiteralCons(s, x);
      if Literal(s[x]) {
        UnitShape(s, x, little);
        EncodedSame(s, x + 1, little);
        SameCons(s[x], EncodeFrom(s, x + 1, little), s[x + 1..]);
        assert s[x..] == [s[x]] + s[x + 1..];
      } else {
        NotSame(s, x, little);
      }
    } else {
      NoneLiteral(s[x..]);
    }
  }

  lemma SameCons(c: Octet, a: Bytes, b: Bytes)
    ensures [c] + a == [c] + b <==> a == b
  {
    if [c] + a == [c] + b {
      assert ([c] + a)[1..] == a && ([c] + b)[1..] == b;
    }
  }

  lemma NoneLiteral(s: Text)
    requires s == []
    ensures AllLiteral(s)
  {
  }

  lemma LiteralCons(s: Text, x: nat)
    requires x < |s|
    ensures AllLiteral(s[x..]) <==> Literal(s[x]) && AllLiteral(s[x + 1..])
  {
    hide Literal;
    assert forall i | x < i < |s| :: s[i] == s[x + 1..][i - x - 1] == s[x..][i - x];
    assert s[x..][0] == s[x];
    assert forall i | 0 <= i < |s| - x :: s[x..][i] == s[x + i];
  }

  /** No field without a value comes after one with a value. */
  predicate NoneInherits(fields: seq<Field>) {
    forall i, j | 0 <= i < j < |fields| && fields[i].value != [] :: fields[j].value != []
  }

  predicate NamesRight(fields: seq<Field>, vars: seq<Var>) {
    |vars| == |fields| && forall i | 0 <= i < |fields| :: vars[i].name == fields[i].name
  }

  predicate ValuesRight(fields: seq<Field>, vars: seq<Var>) {
    |vars| == |fields| && forall i | 0 <= i < |fields| :: CText(vars[i].value) == fields[i].value
  }

  predicate LiteralNames(fields: seq<Field>) {
    forall i | 0 <= i < |fields| :: AllLiteral(fields[i].name)
  }

  lemma PaddedText(v: Text)
    ensures CText(Padded(v)) == v
    ensures v != [] ==> Padded(v) != []
  {
    PaddingUnseen(v, if Ragged(v) then [NUL] else []);
    assert v + [] == v;
  }

  lemma {:induction false} AssignedRight(fields: seq<Field>, last: Bytes, little: bool)
    requires last == [] || CText(last) != []
    ensures ValuesRight(fields, Assigned(fields, last, little))
       <==> NoneInherits(fields) && (last != [] ==> forall j | 0 <= j < |fields| :: fields[j].value != [])
    decreases |fields|
  {
    hide Padded, CText, Encoded;
    if fields != [] {
      var rest := fields[1..];
      var v := if fields[0].value == [] then last else Padded(fields[0].value);
      PaddedText(fields[0].value);
      CTextEmpty();
      AssignedRight(rest, v, little);
      var vars := Assigned(fields, last, little);
      assert vars[0].value == v && vars[1..] == Assigned(rest, v, little);
      ValuesRightCons(fields, vars);
      NoneInheritsCons(fields);
    }
  }

  lemma {:induction false} AssignedNames(fields: seq<Field>, last: Bytes, little: bool)
    ensures NamesRight(fields, Assigned(fields, last, little)) <==> LiteralNames(fields)
    decreases |fields|
  {
    hide Padded, EncodeFrom, AllLiteral;
    if fields != [] {
      var rest, name := fields[1..], fields[0].name;
      var v := if fields[0].value == [] then last else Padded(fields[0].value);
      AssignedNames(rest, v, little);
      EncodedSame(name, 0, little);
      assert name[0..] == name;
      var vars := Assigned(fields, last, little);
      assert vars[0].name == Encoded(name, little) && vars[1..] == Assigned(rest, v, little);
      NamesRightCons(fields, vars);
      assert LiteralNames(fields) <==> AllLiteral(name) && LiteralNames(rest) by {
        assert forall i | 1 <= i < |fields| :: fields[i] == rest[i - 1];
        assert forall i | 0 <= i < |rest| :: rest[i] == fields[i + 1];
      }
    }
  }

  lemma CTextEmpty()
    ensures CText([]) == []
  {
  }

  lemma ValuesRightCons(fields: seq<Field>, vars: seq<Var>)
    requires fields != [] && |vars| == |fields|
    ensures ValuesRight(fields, vars)
       <==> CText(vars[0].value) == fields[0].value && ValuesRight(fields[1..], vars[1..])
  {
    hide CText;
    if ValuesRight(fields[1..], vars[1..]) {
      assert forall i | 1 <= i < |fields| :: fields[i] == fields[1..][i - 1] && vars[i] == vars[1..][i - 1];
    }
  }

  lemma NamesRightCons(fields: seq<Field>, vars: seq<Var>)
    requires fields != [] && |vars| == |fields|
    ensures NamesRight(fields, vars) <==> vars[0].name == fields[0].name && NamesRight(fields[1..], vars[1..])
  {
    if NamesRight(fields[1..], vars[1..]) {
      assert forall i | 1 <= i < |fields| :: fields[i] == fields[1..][i - 1] && vars[i] == vars[1..][i - 1];
    }
  }

  lemma NoneInheritsCons(fields: seq<Field>)
    requires fields != []
    ensures NoneInherits(fields)
       <==> (fields[0].value != [] ==> forall j | 0 <= j < |fields[1..]| :: fields[1..][j].value != [])
            && NoneInherits(fields[1..])
  {
    var rest := fields[1..];
    assert forall j | 0 < j < |fields| :: fields[j] == rest[j - 1];
    assert forall j | 0 <= j < |rest| :: rest[j] == fields[j + 1];
  }

  /** Main result: for any fields, names and values encoded, written as a query.  When all have a name, one assignment
      is made for each, in order.  The names are then those written exactly when each octet of them stands for
      itself, as a name is never decoded; the values, as C strings, exactly when no field with an empty value comes
      after one with a value, as such a field is given the value decoded last.  With a nameless field they are not
      all read. */
  lemma FieldsRead(fields: seq<Field>, little: bool)
    ensures NUL !in Compose(fields, little)
    ensures var r := Assignments(Compose(fields, little), little);
            && (Named(fields) ==>
                  && r.Some?
                  && |r.value| == |fields|
                  && (NamesRight(fields, r.value) <==> LiteralNames(fields))
                  && (ValuesRight(fields, r.value) <==> NoneInherits(fields)))
            && (r.Some? && NamesRight(fields, r.value) && ValuesRight(fields, r.value)
                <==> Named(fields) && LiteralNames(fields) && NoneInherits(fields))
  {
    hide FeedAll, Compose, Named, LiteralNames, NoneInherits, CText;
    ComposeText(fields, little);
    if fields == [] {
      NoFields(little);
    } else {
      TooFew(fields, [], [], [], little);
      if Named(fields) {
        FieldsFed(fields, [], [], little);
        assert [] + Assigned(fields, [], little) == Assigned(fields, [], little);
        AssignedRight(fields, [], little);
        AssignedNames(fields, [], little);
      }
    }
  }

  lemma NoFields(little: bool)
    ensures Compose([], little) == [] && Assignments([], little) == Some([])
    ensures Named([]) && LiteralNames([]) && NoneInherits([])
  {
    TrimmedKept([]);
    assert [] + [NUL] == [NUL];
    FeedOnce(START, [NUL], little);
    FeedOnce(START, [], little);
  }

  lemma {:induction false} ComposeText(fields: seq<Field>, little: bool)
    ensures NUL !in Compose(fields, little)
  {
    if fields != [] {
      EncodedIsSafe(fields[0].name, 0, little);
      EncodedIsSafe(fields[0].value, 0, little);
      ComposeText(fields[1..], little);
    }
  }
}
