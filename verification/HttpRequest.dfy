/** Collecting a request from the pieces in which the parser reports it. */
module HttpRequest {
  import opened Bytes
  import opened Wrappers

  const NUL: char := '\0'

  /** What of a piece a string function copies: all up to the first NUL. */
  function Cut(piece: string): (r: string)
    ensures r <= piece && NUL !in r
    ensures |r| < |piece| ==> piece[|r|] == NUL
    ensures r == piece <==> NUL !in piece
  {
    if piece == [] || piece[0] == NUL then [] else [piece[0]] + Cut(piece[1..])
  }

  function Joined(pieces: seq<string>): string {
    if pieces == [] then [] else Joined(pieces[..|pieces| - 1]) + pieces[|pieces| - 1]
  }

  function Copied(pieces: seq<string>): string {
    if pieces == [] then [] else Copied(pieces[..|pieces| - 1]) + Cut(pieces[|pieces| - 1])
  }

  predicate NulFree(pieces: seq<string>) {
    forall i :: 0 <= i < |pieces| ==> NUL !in pieces[i]
  }

  lemma {:induction false} CopiedIsShorter(pieces: seq<string>)
    ensures |Copied(pieces)| <= |Joined(pieces)|
    ensures |Copied(pieces)| == |Joined(pieces)| ==> NulFree(pieces)
    ensures NulFree(pieces) ==> Copied(pieces) == Joined(pieces)
  {
    if pieces != [] {
      var front, last := pieces[..|pieces| - 1], pieces[|pieces| - 1];
      CopiedIsShorter(front);
      assert pieces == front + [last];
      assert NulFree(pieces) <==> NulFree(front) && NUL !in last;
      assert |Cut(last)| == |last| ==> Cut(last) == last;
    }
  }

  // ----- the callbacks on values -----

  /** headers holds names and values in turn; index is where the last piece went. */
  datatype Request = Request(url: Option<string>, headers: seq<Option<string>>, index: nat, data: seq<u8>)

  function Extended(s: Option<string>, piece: string): Option<string> {
    if s.Some? then Some(s.value + Cut(piece)) else Some(Cut(piece))
  }

  datatype Callback = Url(piece: string) | Field(piece: string) | Value(piece: string) | Body(bytes: seq<u8>)

  function Start(): Request { Request(None, [], 0, []) }

  /** A name goes on, or the next one starts, with room for it and its value. */
  function OnField(r: Request, piece: string): Request {
    var index := if r.index % 2 == 1 then r.index + 1 else r.index;
    var headers := if index == |r.headers| then r.headers + [None, None] else r.headers;
    if index < |headers| then r.(headers := headers[index := Extended(headers[index], piece)], index := index) else r
  }

  /** A value starts or goes on. The parser reports a name first. */
  function OnValue(r: Request, piece: string): Request {
    var index := if r.index % 2 == 0 then r.index + 1 else r.index;
    if index < |r.headers| then r.(headers := r.headers[index := Extended(r.headers[index], piece)],
        index := index) else r
  }

  function Apply(r: Request, c: Callback): Request {
    match c
    case Url(piece) => r.(url := Extended(r.url, piece))
    case Field(piece) => OnField(r, piece)
    case Value(piece) => OnValue(r, piece)
    case Body(bytes) => r.(data := r.data + bytes)
  }

  function Run(r: Request, cs: seq<Callback>): Request {
    if cs == [] then r else Apply(Run(r, cs[..|cs| - 1]), cs[|cs| - 1])
  }

  lemma {:induction false} RunOn(r: Request, a: seq<Callback>, b: seq<Callback>)
    ensures Run(r, a + b) == Run(Run(r, a), b)
  {
    if b == [] {
      assert a + b == a;
    } else {
      assert (a + b)[..|a + b| - 1] == a + b[..|b| - 1];
      RunOn(r, a, b[..|b| - 1]);
    }
  }

  /** Slots come two at a time, every name slot is filled, and the last piece went into the last pair. */
  predicate Paired(r: Request) {
    && |r.headers| % 2 == 0
    && (forall i :: 0 <= i < |r.headers| && i % 2 == 0 ==> r.headers[i].Some?)
    && (if r.headers == [] then r.index == 0 else |r.headers| - 2 <= r.index < |r.headers|)
  }

  lemma ApplyPairs(r: Request, c: Callback)
    requires Paired(r)
    ensures Paired(Apply(r, c))
    ensures |Apply(r, c).headers| == |r.headers| + if c.Field? && (r.headers == [] || r.index % 2 == 1) then 2 else 0
  {
  }

  class HttpRequest {
    var url: Option<string>
    var headers: seq<Option<string>>
    var headersIndex: nat
    var data: seq<u8>

    ghost function View(): Request
      reads this
    {
      Request(url, headers, headersIndex, data)
    }

    ghost predicate Valid()
      reads this
    {
      Paired(View())
    }

    constructor ()
      ensures Valid() && View() == Start()
    {
      url, headers, headersIndex, data := None, [], 0, [];
    }

    method OnUrl(piece: string)
      requires Valid()
      modifies this`url
      ensures Valid() && View() == Apply(old(View()), Url(piece))
    {
      url := if url == None then Some(Cut(piece)) else Some(url.value + Cut(piece));
    }

    method OnHeaderField(piece: string)
      requires Valid()
      modifies this`headers, this`headersIndex
      ensures Valid() && View() == Apply(old(View()), Field(piece))
    {
      if headersIndex % 2 == 1 {
        headersIndex := headersIndex + 1;
      }
      if headersIndex == |headers| {
        headers := headers + [None, None];
      }
      if headers[headersIndex] == None {
        headers := headers[headersIndex := Some(Cut(piece))];
      } else {
        headers := headers[headersIndex := Some(headers[headersIndex].value + Cut(piece))];
      }
    }

    method OnHeaderValue(piece: string)
      requires Valid() && headers != []
      modifies this`headers, this`headersIndex
      ensures Valid() && View() == Apply(old(View()), Value(piece))
    {
      if headersIndex % 2 == 0 {
        headersIndex := headersIndex + 1;
      }
      if headers[headersIndex] == None {
        headers := headers[headersIndex := Some(Cut(piece))];
      } else {
        headers := headers[headersIndex := Some(headers[headersIndex].value + Cut(piece))];
      }
    }

    method OnBody(bytes: seq<u8>)
      requires Valid()
      modifies this`data
      ensures Valid() && View() == Apply(old(View()), Body(bytes))
    {
      data := data + bytes;
    }

    /** The value of the first header with exactly this name. */
    method GetHeader(name: string) returns (value: Option<string>)
      requires Valid()
      ensures Found(headers, name, value)
    {
      var i := 0;
      while i < |headers|
        invariant i % 2 == 0 && i <= |headers|
        invariant forall k :: 0 <= k < i && k % 2 == 0 ==> headers[k] != Some(name)
      {
        if headers[i] == Some(name) {
          assert FirstNamed(headers, name, i);
          return headers[i + 1];
        }
        i := i + 2;
      }
      return None;
    }
  }

  /** The result of a search: the value behind the first such name, or none. */
  ghost predicate Found(headers: seq<Option<string>>, name: string, value: Option<string>) {
    || (exists k :: FirstNamed(headers, name, k) && value == headers[k + 1])
    || (value == None && forall k :: 0 <= k < |headers| && k % 2 == 0 ==> headers[k] != Some(name))
  }

  ghost predicate FirstNamed(headers: seq<Option<string>>, name: string, k: int) {
    && 0 <= k < |headers| - 1 && k % 2 == 0 && headers[k] == Some(name)
    && forall j :: 0 <= j < k && j % 2 == 0 ==> headers[j] != Some(name)
  }

  // ----- requests in pieces -----

  /** A header as the parser reports it: the name in one piece or more, the value in none or more. */
  datatype Header = Header(name: seq<string>, value: seq<string>)

  function Fields(pieces: seq<string>): seq<Callback> {
    seq(|pieces|, i requires 0 <= i < |pieces| => Field(pieces[i]))
  }

  function Values(pieces: seq<string>): seq<Callback> {
    seq(|pieces|, i requires 0 <= i < |pieces| => Value(pieces[i]))
  }

  function Reported(hs: seq<Header>): seq<Callback> {
    if hs == [] then []
    else Reported(hs[..|hs| - 1]) + Fields(hs[|hs| - 1].name) + Values(hs[|hs| - 1].value)
  }

  /** The table that the headers should make: whole names and whole values in turn. */
  function Table(hs: seq<Header>): (r: seq<Option<string>>)
    ensures |r| == 2 * |hs|
  {
    if hs == [] then []
    else Table(hs[..|hs| - 1]) + [Some(Joined(hs[|hs| - 1].name)), Some(Joined(hs[|hs| - 1].value))]
  }

  predicate Named(hs: seq<Header>) { forall i :: 0 <= i < |hs| ==> hs[i].name != [] }

  /** Every value is reported, and no piece holds a NUL. */
  predicate Clean(hs: seq<Header>) {
    forall i :: 0 <= i < |hs| ==> hs[i].value != [] && NulFree(hs[i].name) && NulFree(hs[i].value)
  }

  predicate Open(hs: seq<Header>) { hs != [] && hs[|hs| - 1].value == [] }

  lemma CopiedNext(pieces: seq<string>)
    ensures pieces != [] ==> Copied(pieces) == Copied(pieces[..|pieces| - 1]) + Cut(pieces[|pieces| - 1])
    ensures Copied([]) == []
  {
  }

  lemma FieldNext(r: Request, pieces: seq<string>)
    ensures pieces != [] ==>
              Run(r, Fields(pieces)) == OnField(Run(r, Fields(pieces[..|pieces| - 1])), pieces[|pieces| - 1])
    ensures Run(r, Fields([])) == r
  {
    if pieces != [] {
      assert Fields(pieces)[..|pieces| - 1] == Fields(pieces[..|pieces| - 1]);
    }
  }

  lemma ValueNext(r: Request, pieces: seq<string>)
    ensures pieces != [] ==>
              Run(r, Values(pieces)) == OnValue(Run(r, Values(pieces[..|pieces| - 1])), pieces[|pieces| - 1])
    ensures Run(r, Values([])) == r
  {
    if pieces != [] {
      assert Values(pieces)[..|pieces| - 1] == Values(pieces[..|pieces| - 1]);
    }
  }

  /** More pieces of a name go to the same slot. */
  lemma {:induction false} NameGoesOn(r: Request, pieces: seq<string>)
    requires r.index < |r.headers| && r.headers[r.index].Some? && r.index % 2 == 0
    ensures Run(r, Fields(pieces)) ==
            r.(headers := r.headers[r.index := Some(r.headers[r.index].value + Copied(pieces))])
  {
    hide Run, Fields, Copied, Cut;
    FieldNext(r, pieces);
    CopiedNext(pieces);
    var s := r.headers[r.index].value;
    if pieces == [] {
      assert s + [] == s;
    } else {
      var front, last := pieces[..|pieces| - 1], pieces[|pieces| - 1];
      NameGoesOn(r, front);
      assert s + Copied(front) + Cut(last) == s + Copied(pieces);
    }
  }

  /** The first piece of a name starts a pair, and the others follow it. */
  lemma {:induction false} NewName(r: Request, pieces: seq<string>)
    requires Paired(r) && (r.headers == [] || r.index % 2 == 1) && pieces != []
    ensures Run(r, Fields(pieces)) == r.(headers := r.headers + [Some(Copied(pieces)), None], index := |r.headers|)
  {
    hide Run, Fields, Copied, Cut;
    var front, last := pieces[..|pieces| - 1], pieces[|pieces| - 1];
    FieldNext(r, pieces);
    FieldNext(r, []);
    CopiedNext(pieces);
    if front == [] {
      assert [] + Cut(last) == Cut(last);
    } else {
      NewName(r, front);
    }
  }

  lemma {:induction false} NewValue(r: Request, pieces: seq<string>)
    requires r.headers != [] && r.index % 2 == 0 && r.index == |r.headers| - 2
        && r.headers[|r.headers| - 1] == None && pieces != []
    ensures Run(r, Values(pieces)) ==
            r.(headers := r.headers[|r.headers| - 1 := Some(Copied(pieces))], index := |r.headers| - 1)
  {
    hide Run, Values, Copied, Cut;
    var front, last := pieces[..|pieces| - 1], pieces[|pieces| - 1];
    ValueNext(r, pieces);
    ValueNext(r, []);
    CopiedNext(pieces);
    if front == [] {
      assert [] + Cut(last) == Cut(last);
    } else {
      NewValue(r, front);
    }
  }

  /** A table with one more header: after a header without value its name is added to that header's name. */
  function Grown(before: seq<Option<string>>, open: bool, h: Header): (r: seq<Option<string>>)
    requires |before| % 2 == 0 && (open ==> |before| >= 2 && before[|before| - 2].Some?)
    ensures |r| == |before| + (if open then 0 else 2) && r[|r| - 2].Some?
    ensures h.value == [] && (open ==> before[|before| - 1] == None) ==> r[|r| - 1] == None
  {
    var named := if open then before[|before| - 2 := Some(before[|before| - 2].value + Copied(h.name))]
                 else before + [Some(Copied(h.name)), None];
    if h.value == [] then named else named[|named| - 1 := Some(Copied(h.value))]
  }

  /** The table that comes about. */
  function Collected(hs: seq<Header>): (r: seq<Option<string>>)
    ensures |r| % 2 == 0 && |r| <= 2 * |hs| && (hs != [] ==> |r| >= 2 && r[|r| - 2].Some?)
    ensures Open(hs) ==> r[|r| - 1] == None
  {
    if hs == [] then []
    else
      var front := hs[..|hs| - 1];
      Grown(Collected(front), Open(front), hs[|hs| - 1])
  }

  /** Where the index is after these headers. */
  function IndexAfter(hs: seq<Header>): nat {
    if hs == [] then 0 else |Collected(hs)| - if Open(hs) then 2 else 1
  }

  lemma {:induction false} RunPairs(cs: seq<Callback>)
    ensures Paired(Run(Start(), cs))
  {
    if cs != [] {
      RunPairs(cs[..|cs| - 1]);
      ApplyPairs(Run(Start(), cs[..|cs| - 1]), cs[|cs| - 1]);
    }
  }

  lemma {:induction false} RunCollects(hs: seq<Header>)
    requires Named(hs)
    ensures Run(Start(), Reported(hs)) == Request(None, Collected(hs), IndexAfter(hs), [])
  {
    if hs != [] {
      var front, h := hs[..|hs| - 1], hs[|hs| - 1];
      var cs := Reported(front);
      RunCollects(front);
      assert hs == front + [h];
      hide Run, Collected, Fields, Values, IndexAfter, Paired;
      RunPairs(cs);
      var r := Run(Start(), cs);
      RunOn(Start(), cs, Fields(h.name));
      RunOn(Start(), cs + Fields(h.name), Values(h.value));
      NameOn(front, h, r);
    }
  }

  /** One more header, from the table of those before it. */
  lemma NameOn(front: seq<Header>, h: Header, r: Request)
    requires Paired(r) && r == Request(None, Collected(front), IndexAfter(front), []) && h.name != []
    ensures Run(Run(r, Fields(h.name)), Values(h.value)) ==
            Request(None, Collected(front + [h]), IndexAfter(front + [h]), [])
  {
    hide Run, Fields, Values, Copied;
    CollectedNext(front, h);
    hide Collected;
    if Open(front) {
      NameGoesOn(r, h.name);
    } else {
      NewName(r, h.name);
    }
    var named := Run(r, Fields(h.name));
    if h.value == [] {
      ValueNext(named, []);
    } else {
      NewValue(named, h.value);
    }
  }

  lemma CollectedNext(front: seq<Header>, h: Header)
    ensures Collected(front + [h]) == Grown(Collected(front), Open(front), h)
    ensures Open(front + [h]) <==> h.value == []
  {
    hide Grown;
    var hs := front + [h];
    assert hs[..|hs| - 1] == front && hs[|hs| - 1] == h;
  }

  /** The table is that of the whole headers exactly when every value is reported and no piece has a NUL. */
  lemma {:induction false} CollectedExactly(hs: seq<Header>)
    ensures Collected(hs) == Table(hs) <==> Clean(hs)
  {
    hide Collected, Table, Clean;
    if hs == [] {
      EmptyIsClean();
    } else {
      var front, h := hs[..|hs| - 1], hs[|hs| - 1];
      CollectedExactly(front);
      OneMoreExactly(front, h);
      assert hs == front + [h];
    }
  }

  lemma EmptyIsClean()
    ensures Collected([]) == Table([]) && Clean([])
  {
  }

  lemma OneMoreExactly(front: seq<Header>, h: Header)
    requires Collected(front) == Table(front) <==> Clean(front)
    ensures Collected(front + [h]) == Table(front + [h]) <==> Clean(front + [h])
  {
    hide Copied, Joined, NulFree;
    var hs := front + [h];
    assert hs[..|front|] == front && hs[|front|] == h;
    CleanNext(front, h);
    hide Clean;
    if Open(front) {
      assert |Collected(hs)| == |Collected(front)| < |Table(hs)|;
    } else if h.value == [] {
      assert Collected(hs)[|Collected(hs)| - 1] == None;
      assert Table(hs)[|Table(hs)| - 1] != None;
    } else {
      var cn, cv, jn, jv := Copied(h.name), Copied(h.value), Joined(h.name), Joined(h.value);
      assert Collected(hs) == Collected(front) + [Some(cn), Some(cv)];
      assert Table(hs) == Table(front) + [Some(jn), Some(jv)];
      CopiedIsShorter(h.name);
      CopiedIsShorter(h.value);
      SamePairs(Collected(front), Table(front), cn, cv, jn, jv);
    }
  }

  lemma CleanNext(front: seq<Header>, h: Header)
    ensures Clean(front + [h]) <==> Clean(front) && h.value != [] && NulFree(h.name) && NulFree(h.value)
    ensures Clean(front + [h]) ==> !Open(front)
  {
    var hs := front + [h];
    assert hs[|front|] == h;
    assert forall i :: 0 <= i < |front| ==> hs[i] == front[i];
  }

  lemma SamePairs(a: seq<Option<string>>, b: seq<Option<string>>, an: string, av: string, bn: string, bv: string)
    ensures a + [Some(an), Some(av)] == b + [Some(bn), Some(bv)] <==> a == b && an == bn && av == bv
  {
    var s, t := a + [Some(an), Some(av)], b + [Some(bn), Some(bv)];
    if s == t {
      assert s[..|s| - 2] == a && t[..|t| - 2] == b;
      assert s[|s| - 2] == Some(an) && t[|t| - 2] == Some(bn);
      assert s[|s| - 1] == Some(av) && t[|t| - 1] == Some(bv);
    }
  }

  // ----- whole requests -----

  function HeaderPart(cs: seq<Callback>): seq<Callback> {
    if cs == [] then []
    else
      var c := cs[|cs| - 1];
      HeaderPart(cs[..|cs| - 1]) + if c.Field? || c.Value? then [c] else []
  }

  function UrlPieces(cs: seq<Callback>): seq<string> {
    if cs == [] then [] else UrlPieces(cs[..|cs| - 1]) + if cs[|cs| - 1].Url? then [cs[|cs| - 1].piece] else []
  }

  function BodyBytes(cs: seq<Callback>): seq<u8> {
    if cs == [] then [] else BodyBytes(cs[..|cs| - 1]) + if cs[|cs| - 1].Body? then cs[|cs| - 1].bytes else []
  }

  lemma RunNext(r: Request, cs: seq<Callback>, c: Callback)
    ensures Run(r, cs + [c]) == Apply(Run(r, cs), c)
  {
    assert (cs + [c])[..|cs|] == cs;
  }

  lemma PartsNext(cs: seq<Callback>, c: Callback)
    ensures HeaderPart(cs + [c]) == if c.Field? || c.Value? then HeaderPart(cs) + [c] else HeaderPart(cs)
    ensures UrlPieces(cs + [c]) == if c.Url? then UrlPieces(cs) + [c.piece] else UrlPieces(cs)
    ensures BodyBytes(cs + [c]) == if c.Body? then BodyBytes(cs) + c.bytes else BodyBytes(cs)
  {
    assert (cs + [c])[..|cs|] == cs;
  }

  /** URL, headers and body do not disturb each other, however their pieces alternate. */
  ghost predicate Separate(cs: seq<Callback>) {
    var r, h := Run(Start(), cs), Run(Start(), HeaderPart(cs));
    && r.headers == h.headers && r.index == h.index && r.data == BodyBytes(cs)
    && r.url == if UrlPieces(cs) == [] then None else Some(Copied(UrlPieces(cs)))
  }

  lemma {:induction false} Separately(cs: seq<Callback>)
    ensures Separate(cs)
  {
    if cs != [] {
      var front, c := cs[..|cs| - 1], cs[|cs| - 1];
      Separately(front);
      assert cs == front + [c];
      if c.Url? {
        UrlSeparate(front, c);
      } else if c.Body? {
        BodySeparate(front, c);
      } else {
        HeaderSeparate(front, c);
      }
    }
  }

  lemma UrlSeparate(front: seq<Callback>, c: Callback)
    requires Separate(front) && c.Url?
    ensures Separate(front + [c])
  {
    hide Run, HeaderPart, UrlPieces, BodyBytes, Cut, Copied;
    RunNext(Start(), front, c);
    PartsNext(front, c);
    UrlNext(UrlPieces(front), c.piece);
  }

  lemma BodySeparate(front: seq<Callback>, c: Callback)
    requires Separate(front) && c.Body?
    ensures Separate(front + [c])
  {
    hide Run, HeaderPart, UrlPieces, BodyBytes, Copied;
    RunNext(Start(), front, c);
    PartsNext(front, c);
  }

  lemma HeaderSeparate(front: seq<Callback>, c: Callback)
    requires Separate(front) && (c.Field? || c.Value?)
    ensures Separate(front + [c])
  {
    hide Run, HeaderPart, UrlPieces, BodyBytes, Copied, Extended;
    RunNext(Start(), front, c);
    RunNext(Start(), HeaderPart(front), c);
    PartsNext(front, c);
    SameHeaders(Run(Start(), front), Run(Start(), HeaderPart(front)), c);
  }

  /** What a header callback does to the table depends on nothing else. */
  lemma SameHeaders(r: Request, h: Request, c: Callback)
    requires r.headers == h.headers && r.index == h.index && (c.Field? || c.Value?)
    ensures Apply(r, c) == Apply(h, c).(url := r.url, data := r.data)
  {
    hide Extended;
  }

  lemma UrlNext(pieces: seq<string>, piece: string)
    ensures Copied(pieces + [piece]) == Copied(pieces) + Cut(piece)
    ensures pieces == [] ==> Copied(pieces + [piece]) == Cut(piece)
  {
    assert (pieces + [piece])[..|pieces|] == pieces;
  }

  /** However a request is cut into pieces, the table is the whole names and values in turn, exactly when
      every value is reported and no piece of the headers has a NUL. */
  lemma FragmentsExactly(cs: seq<Callback>, hs: seq<Header>)
    requires Named(hs) && HeaderPart(cs) == Reported(hs)
    ensures Run(Start(), cs).headers == Table(hs) <==> Clean(hs)
    ensures Run(Start(), cs).data == BodyBytes(cs)
    ensures UrlPieces(cs) == [] ==> Run(Start(), cs).url == None
    ensures UrlPieces(cs) != [] ==>
              (Run(Start(), cs).url == Some(Joined(UrlPieces(cs))) <==> NulFree(UrlPieces(cs)))
  {
    hide Run, Collected, Table, Reported, HeaderPart, UrlPieces, BodyBytes;
    Separately(cs);
    RunCollects(hs);
    CollectedExactly(hs);
    CopiedIsShorter(UrlPieces(cs));
  }

  /** A header without a reported value makes one name of its own and the next. */
  lemma EmptyValueMerges(a: string, b: string, v: string)
    requires NUL !in a && NUL !in b && NUL !in v
    ensures var hs := [Header([a], []), Header([b], [v])];
            Run(Start(), Reported(hs)).headers == [Some(a + b), Some(v)] != Table(hs)
  {
    hide Run, Reported, Collected, Table;
    RunCollects([Header([a], []), Header([b], [v])]);
    TwoCollected(a, b, v);
  }

  lemma TwoCollected(a: string, b: string, v: string)
    requires NUL !in a && NUL !in b && NUL !in v
    ensures Collected([Header([a], []), Header([b], [v])]) == [Some(a + b), Some(v)]
  {
    var h, g := Header([a], []), Header([b], [v]);
    UrlNext([], a);
    UrlNext([], b);
    UrlNext([], v);
    hide Copied, Cut;
    assert [h, g][..1] == [h] && [h][..0] == [];
    assert [] + [a] == [a] && [] + [b] == [b] && [] + [v] == [v];
    assert Collected([h]) == [Some(a), None];
  }

  // ----- lookup -----

  /** The value of the first header with this name. */
  function Lookup(hs: seq<Header>, name: string): Option<string> {
    if hs == [] then None
    else if Joined(hs[0].name) == name then Some(Joined(hs[0].value))
    else Lookup(hs[1..], name)
  }

  lemma {:induction false} TableAt(hs: seq<Header>, i: nat)
    requires i < |hs|
    ensures Table(hs)[2 * i] == Some(Joined(hs[i].name)) && Table(hs)[2 * i + 1] == Some(Joined(hs[i].value))
  {
    if i < |hs| - 1 {
      TableAt(hs[..|hs| - 1], i);
    }
  }

  lemma {:induction false} LookupIsFirst(hs: seq<Header>, name: string, i: nat)
    requires i <= |hs| && forall j :: 0 <= j < i ==> Joined(hs[j].name) != name
    ensures i < |hs| && Joined(hs[i].name) == name ==> Lookup(hs, name) == Some(Joined(hs[i].value))
    ensures i == |hs| ==> Lookup(hs, name) == None
  {
    if i > 0 {
      assert forall j :: 0 <= j < i - 1 ==> hs[1..][j] == hs[j + 1];
      LookupIsFirst(hs[1..], name, i - 1);
    }
  }

  /** What the search through the table finds is what the headers say. */
  lemma FoundIsLookup(hs: seq<Header>, name: string, value: Option<string>)
    requires Found(Table(hs), name, value)
    ensures value == Lookup(hs, name)
  {
    hide Table, Joined, Lookup;
    var t := Table(hs);
    if k :| FirstNamed(t, name, k) && value == t[k + 1] {
      NoneBefore(hs, name, k / 2);
      TableAt(hs, k / 2);
      LookupIsFirst(hs, name, k / 2);
    } else {
      NoneBefore(hs, name, |hs|);
      LookupIsFirst(hs, name, |hs|);
    }
  }

  lemma NoneBefore(hs: seq<Header>, name: string, n: nat)
    requires n <= |hs| && forall j :: 0 <= j < 2 * n && j % 2 == 0 ==> Table(hs)[j] != Some(name)
    ensures forall j :: 0 <= j < n ==> Joined(hs[j].name) != name
  {
    hide Table, Joined;
    forall j | 0 <= j < n
      ensures Joined(hs[j].name) != name
    {
      TableAt(hs, j);
    }
  }

  // ----- the collector -----

  /** The callbacks of one request, in any order in which the first value comes after a name. */
  method Receive(request: HttpRequest, cs: seq<Callback>)
    requires request.Valid() && request.View() == Start()
    requires forall i :: 0 <= i < |cs| && cs[i].Value? ==> exists j :: 0 <= j < i && cs[j].Field?
    modifies request
    ensures request.Valid() && request.View() == Run(Start(), cs)
  {
    for i := 0 to |cs|
      invariant request.Valid() && request.View() == Run(Start(), cs[..i])
      invariant (exists j :: 0 <= j < i && cs[j].Field?) ==> request.headers != []
    {
      assert cs[..i + 1][..i] == cs[..i];
      ApplyPairs(request.View(), cs[i]);
      match cs[i] {
        case Url(piece) => request.OnUrl(piece);
        case Field(piece) => request.OnHeaderField(piece);
        case Value(piece) => request.OnHeaderValue(piece);
        case Body(bytes) => request.OnBody(bytes);
      }
    }
    assert cs[..|cs|] == cs;
  }
}
