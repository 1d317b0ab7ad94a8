/** Which messages a parent recognises as its own sub-requests. */
module TraceFit {
  import opened Text
  import opened Trace

  // ---------------------------------------------------------------- printing is injective

  predicate Prints(c: char) { IsDigit(c) || c == '-' }

  lemma HeadChars(m: TraceComponent, c: char)
    requires !Prints(c) && c != ',' && c != ':'
    ensures c !in Head(m)
  {}

  lemma RequestChars(reqs: seq<ReqNum>, c: char)
    requires !IsDigit(c) && c != '.'
    ensures c !in RequestsText(reqs)
  {
    JoinContains(RequestTexts(reqs), '.', c);
  }

  lemma ModuleChars(m: TraceComponent, c: char)
    requires !Prints(c) && c != ',' && c != ':' && c != '.'
    ensures c !in ModuleText(m)
  {
    HeadChars(m, c);
    RequestChars(m.reqs, c);
  }

  lemma ModulesChars(ms: seq<TraceComponent>, c: char)
    requires !Prints(c) && c != ',' && c != ':' && c != '.' && c != '/'
    ensures c !in ModulesText(ms)
  {
    JoinContains(ModuleTexts(ms), '/', c);
    forall i | 0 <= i < |ms| ensures c !in ModuleTexts(ms)[i] {
      ModuleChars(ms[i], c);
    }
  }

  lemma HasColon(ms: seq<TraceComponent>)
    ensures ':' in ModulesText(ms) <==> ms != []
  {
    JoinContains(ModuleTexts(ms), '/', ':');
    if ms != [] {
      assert Head(ms[0])[|Head(ms[0])| - 1] == ':';
      assert ':' in ModuleTexts(ms)[0];
    }
  }

  lemma SplitRequests(reqs: seq<ReqNum>)
    ensures Split(RequestsText(reqs), '.') == if reqs == [] then [""] else RequestTexts(reqs)
  {
    if reqs != [] {
      SplitJoin(RequestTexts(reqs), '.');
    }
  }

  lemma SplitModule(m: TraceComponent)
    ensures Split(ModuleText(m), ':') == [Signed(m.moduleID) + "," + Signed(m.gateID), RequestsText(m.reqs)]
  {
    var (ids, reqs) := (Signed(m.moduleID) + "," + Signed(m.gateID), RequestsText(m.reqs));
    RequestChars(m.reqs, ':');
    SplitJoin([ids, reqs], ':');
    JoinNext([ids], reqs, ':');
    assert [ids] + [reqs] == [ids, reqs];
  }

  lemma SplitIds(m: TraceComponent)
    ensures Split(Signed(m.moduleID) + "," + Signed(m.gateID), ',') == [Signed(m.moduleID), Signed(m.gateID)]
  {
    var (a, b) := (Signed(m.moduleID), Signed(m.gateID));
    SplitJoin([a, b], ',');
    JoinNext([a], b, ',');
    assert [a] + [b] == [a, b];
  }

  lemma SplitModules(ms: seq<TraceComponent>)
    requires ms != []
    ensures Split(ModulesText(ms), '/') == ModuleTexts(ms)
  {
    forall i | 0 <= i < |ms| ensures '/' !in ModuleTexts(ms)[i] {
      ModuleChars(ms[i], '/');
    }
    SplitJoin(ModuleTexts(ms), '/');
  }

  predicate PlainHost(n: NodeTrace) { '@' !in n.host }

  predicate PlainHosts(t: seq<NodeTrace>) { forall i :: 0 <= i < |t| ==> PlainHost(t[i]) }

  lemma DecimalsAreInjective(a: seq<ReqNum>, b: seq<ReqNum>)
    requires RequestTexts(a) == RequestTexts(b)
    ensures a == b
  {
    assert |RequestTexts(a)| == |a| && |RequestTexts(b)| == |b|;
    forall i | 0 <= i < |a| ensures a[i] == b[i] {
      assert Decimal(a[i]) == RequestTexts(a)[i] == RequestTexts(b)[i] == Decimal(b[i]);
      ValueOfDecimal(a[i]);
      ValueOfDecimal(b[i]);
    }
  }

  lemma RequestsAreInjective(a: seq<ReqNum>, b: seq<ReqNum>)
    requires RequestsText(a) == RequestsText(b)
    ensures a == b
  {
    assert a != [] ==> RequestTexts(a)[0] != "";
    assert b != [] ==> RequestTexts(b)[0] != "";
    SplitRequests(a);
    SplitRequests(b);
    if a != [] && b != [] {
      DecimalsAreInjective(a, b);
    }
  }

  lemma ModuleIsInjective(a: TraceComponent, b: TraceComponent)
    requires ModuleText(a) == ModuleText(b)
    ensures a == b
  {
    SplitModule(a);
    SplitModule(b);
    SplitIds(a);
    SplitIds(b);
    SignedIsInjective(a.moduleID, b.moduleID);
    SignedIsInjective(a.gateID, b.gateID);
    RequestsAreInjective(a.reqs, b.reqs);
  }

  lemma ModulesAreInjective(a: seq<TraceComponent>, b: seq<TraceComponent>)
    requires ModulesText(a) == ModulesText(b)
    ensures a == b
  {
    HasColon(a);
    HasColon(b);
    if a != [] {
      SplitModules(a);
      SplitModules(b);
      forall i | 0 <= i < |a| ensures a[i] == b[i] {
        assert ModuleTexts(a)[i] == ModuleTexts(b)[i];
        ModuleIsInjective(a[i], b[i]);
      }
      assert |ModuleTexts(a)| == |a| && |ModuleTexts(b)| == |b|;
    }
  }

  /** The texts between the '@' of a printed trace: the first host, the modules of every node with the
      host of the next, and the modules of the last. */
  function Field(t: seq<NodeTrace>, i: nat): string
    requires t != [] && i <= |t|
  {
    if i == 0 then t[0].host
    else if i < |t| then ModulesText(t[i - 1].modules) + ("|" + t[i].host)
    else ModulesText(t[i - 1].modules)
  }

  ghost predicate AreFields(f: seq<string>, t: seq<NodeTrace>) {
    t != [] && |f| == |t| + 1 && forall i :: 0 <= i <= |t| ==> f[i] == Field(t, i)
  }

  lemma FieldNext(t: seq<NodeTrace>, n: NodeTrace, i: nat)
    requires t != [] && i <= |t| + 1
    ensures Field(t + [n], i) ==
            if i < |t| then Field(t, i) else if i == |t| then Field(t, i) + ("|" + n.host)
            else ModulesText(n.modules)
  {
    assert (t + [n])[|t|] == n;
  }

  lemma FieldsNext(f: seq<string>, t: seq<NodeTrace>, n: NodeTrace)
    requires AreFields(f, t)
    ensures AreFields(f[..|t|] + [f[|t|] + ("|" + n.host)] + [ModulesText(n.modules)], t + [n])
  {
    var f' := f[..|t|] + [f[|t|] + ("|" + n.host)] + [ModulesText(n.modules)];
    forall i | 0 <= i <= |t + [n]| ensures f'[i] == Field(t + [n], i) {
      FieldNext(t, n, i);
    }
  }

  /** A host and its modules put behind a text, as two more fields of it. */
  lemma JoinNode(f: seq<string>, last: string, host: string, m: string)
    ensures Join(f + [last + ("|" + host)] + [m], '@') == Join(f + [last], '@') + ("|" + (host + "@" + m))
  {
    JoinNext(f + [last + ("|" + host)], m, '@');
    JoinLonger(f, last, "|" + host, '@');
    var j := Join(f + [last], '@');
    assert j + ("|" + host) + "@" + m == j + ("|" + (host + "@" + m));
  }

  lemma {:induction false} PrintIsFields(t: seq<NodeTrace>) returns (f: seq<string>)
    requires t != []
    ensures AreFields(f, t) && Print(t) == Join(f, '@')
  {
    FrontAndLast(t);
    var (front, n) := (Front(t), Last(t));
    if front == [] {
      f := PrintOfNode(n);
    } else {
      var before := PrintIsFields(front);
      f := PrintNodeNext(before, front, n);
    }
  }

  lemma FrontAndLast(t: seq<NodeTrace>)
    requires t != []
    ensures t == Front(t) + [Last(t)] && (Front(t) == [] ==> t == [Last(t)])
  {}

  lemma PrintOfNode(n: NodeTrace) returns (f: seq<string>)
    ensures AreFields(f, [n]) && Print([n]) == Join(f, '@')
  {
    var m := ModulesText(n.modules);
    assert NodeTexts([n]) == [NodeText(n)];
    JoinNext([n.host], m, '@');
    f := [n.host] + [m];
  }

  lemma PrintNodeNext(f: seq<string>, t: seq<NodeTrace>, n: NodeTrace) returns (f': seq<string>)
    requires AreFields(f, t) && Print(t) == Join(f, '@')
    ensures AreFields(f', t + [n]) && Print(t + [n]) == Join(f', '@')
  {
    f' := f[..|t|] + [f[|t|] + ("|" + n.host)] + [ModulesText(n.modules)];
    FieldsNext(f, t, n);
    PrintOneMore(t, n);
    JoinNode(f[..|t|], f[|t|], n.host, ModulesText(n.modules));
    assert f[..|t|] + [f[|t|]] == f;
  }

  lemma SplitTrace(t: seq<NodeTrace>)
    requires t != [] && PlainHosts(t)
    ensures AreFields(Split(Print(t), '@'), t)
  {
    var f := PrintIsFields(t);
    forall i | 0 <= i < |f| ensures '@' !in f[i] {
      FieldHasNoAt(t, i);
    }
    SplitJoin(f, '@');
  }

  lemma FieldHasNoAt(t: seq<NodeTrace>, i: nat)
    requires t != [] && PlainHosts(t) && i <= |t|
    ensures '@' !in Field(t, i)
  {
    assert i < |t| ==> PlainHost(t[i]);
    if i > 0 {
      ModulesChars(t[i - 1].modules, '@');
    }
  }

  /** Where a text without bars ends and a bar follows. */
  lemma FirstBar(m: string, h: string, m': string, x: string)
    requires '|' !in m && '|' !in m' && m + ("|" + h) == m' + x
    ensures |m'| <= |m| < |m'| + |x| && x[|m| - |m'|] == '|'
    ensures m == m' + x[..|m| - |m'|] && h == x[|m| - |m'| + 1..]
  {
    var s := m + ("|" + h);
    assert s[|m|] == '|' && s[..|m|] == m && s[|m| + 1..] == h;
    assert s[..|m'|] == m';
    assert forall k :: 0 <= k < |m'| ==> s[k] == m'[k];
    assert x == s[|m'|..];
  }

  lemma SameFields(a: seq<NodeTrace>, b: seq<NodeTrace>, i: nat)
    requires i < |a| && i < |b| && Field(a, i) == Field(b, i)
    ensures a[i].host == b[i].host && (i > 0 ==> a[i - 1].modules == b[i - 1].modules)
  {
    if i > 0 {
      var (m, m') := (ModulesText(a[i - 1].modules), ModulesText(b[i - 1].modules));
      ModulesChars(a[i - 1].modules, '|');
      ModulesChars(b[i - 1].modules, '|');
      FirstBar(m, a[i].host, m', "|" + b[i].host);
      FirstBar(m', b[i].host, m, "|" + a[i].host);
      ModulesAreInjective(a[i - 1].modules, b[i - 1].modules);
    }
  }

  lemma SameNodes(a: seq<NodeTrace>, b: seq<NodeTrace>, i: nat)
    requires |a| == |b| && i < |a| && Field(a, i) == Field(b, i) && Field(a, i + 1) == Field(b, i + 1)
    ensures a[i] == b[i]
  {
    SameFields(a, b, i);
    if i + 1 < |a| {
      SameFields(a, b, i + 1);
    } else {
      ModulesAreInjective(a[i].modules, b[i].modules);
    }
  }

  lemma FieldsAreInjective(f: seq<string>, a: seq<NodeTrace>, b: seq<NodeTrace>)
    requires AreFields(f, a) && AreFields(f, b)
    ensures a == b
  {
    forall i | 0 <= i < |a| ensures a[i] == b[i] {
      assert f[i] == Field(a, i) == Field(b, i) && f[i + 1] == Field(a, i + 1) == Field(b, i + 1);
      SameNodes(a, b, i);
    }
  }

  /** Two traces that print alike are the same, when no host has an '@' in its name. */
  lemma PrintIsInjective(a: seq<NodeTrace>, b: seq<NodeTrace>)
    requires PlainHosts(a) && PlainHosts(b) && Print(a) == Print(b)
    ensures a == b
  {
    HasAt(a);
    HasAt(b);
    if a != [] {
      SplitTrace(a);
      SplitTrace(b);
      FieldsAreInjective(Split(Print(a), '@'), a, b);
    }
  }

  lemma HasAt(t: seq<NodeTrace>)
    ensures '@' in Print(t) <==> t != []
  {
    JoinContains(NodeTexts(t), '|', '@');
    if t != [] {
      assert NodeText(t[0])[|t[0].host|] == '@';
      assert '@' in NodeTexts(t)[0];
    }
  }

  // ---------------------------------------------------------------- a sub-request fits its parent

  /** What one more request number adds to the text of a module. */
  function More(reqs: seq<ReqNum>, req: ReqNum): string {
    if reqs != [] then "." + Decimal(req) else Decimal(req)
  }

  lemma Regroup(a: string, b: string, c: string)
    ensures a + b + c == a + (b + c)
  {}

  lemma LongerRequests(reqs: seq<ReqNum>, req: ReqNum)
    ensures RequestsText(reqs + [req]) == RequestsText(reqs) + More(reqs, req)
  {
    assert RequestTexts(reqs + [req]) == RequestTexts(reqs) + [Decimal(req)];
    JoinNext(RequestTexts(reqs), Decimal(req), '.');
    if reqs != [] {
      Regroup(RequestsText(reqs), ".", Decimal(req));
    } else {
      assert "" + Decimal(req) == Decimal(req);
    }
  }

  lemma LongerModule(m: TraceComponent, req: ReqNum)
    ensures ModuleText(TraceComponent(m.moduleID, m.gateID, m.reqs + [req])) == ModuleText(m) + More(m.reqs, req)
  {
    LongerRequests(m.reqs, req);
    Regroup(Head(m), RequestsText(m.reqs), More(m.reqs, req));
  }

  lemma LongerModules(front: seq<TraceComponent>, m: TraceComponent, m': TraceComponent, more: string)
    requires ModuleText(m') == ModuleText(m) + more
    ensures ModulesText(front + [m']) == ModulesText(front + [m]) + more
  {
    assert ModuleTexts(front + [m]) == ModuleTexts(front) + [ModuleText(m)];
    assert ModuleTexts(front + [m']) == ModuleTexts(front) + [ModuleText(m')];
    JoinLonger(ModuleTexts(front), ModuleText(m), more, '/');
  }

  lemma LongerTrace(front: seq<NodeTrace>, n: NodeTrace, n': NodeTrace, more: string)
    requires n.host == n'.host && ModulesText(n'.modules) == ModulesText(n.modules) + more
    ensures Print(front + [n']) == Print(front + [n]) + more
  {
    Regroup(n.host + "@", ModulesText(n.modules), more);
    assert NodeTexts(front + [n]) == NodeTexts(front) + [NodeText(n)];
    assert NodeTexts(front + [n']) == NodeTexts(front) + [NodeText(n')];
    JoinLonger(NodeTexts(front), NodeText(n), more, '|');
  }

  /** What a request number adds to the printed trace. */
  lemma PrintWithRequest(t: seq<NodeTrace>, req: ReqNum)
    requires HasModule(t)
    ensures Print(WithRequest(t, req)) == Print(t) + More(LastModule(t).reqs, req)
  {
    var (n, m) := (Last(t), LastModule(t));
    var m' := TraceComponent(m.moduleID, m.gateID, m.reqs + [req]);
    var n' := NodeTrace(n.host, Front(n.modules) + [m']);
    LongerModule(m, req);
    assert n.modules == Front(n.modules) + [m] && t == Front(t) + [n];
    LongerModules(Front(n.modules), m, m', More(m.reqs, req));
    assert WithRequest(t, req) == Front(t) + [n'];
    LongerTrace(Front(t), n, n', More(m.reqs, req));
  }

  /** What a node adds to the printed trace. */
  lemma PrintWithNode(t: seq<NodeTrace>, host: string)
    ensures Print(WithNode(t, host)) == Print(t) + ((if t == [] then "" else "|") + (host + "@"))
  {
    var n := NodeTrace(host, []);
    assert NodeText(n) == host + "@" + "" == host + "@";
    if t == [] {
      assert WithNode(t, host) == [n] && NodeTexts([n]) == [NodeText(n)] && NodeTexts([]) == [];
    } else {
      PrintOneMore(t, n);
    }
  }

  /** What a module adds to it. */
  lemma PrintWithModule(t: seq<NodeTrace>, module_: Int32, gate: Int32, req: ReqNum)
    requires t != []
    ensures Print(WithModule(t, module_, gate, req)) ==
            Print(t) + ((if Last(t).modules == [] then "" else "/")
                        + (Signed(module_) + "," + Signed(gate) + ":" + Decimal(req)))
  {
    var c := TraceComponent(module_, gate, [req]);
    TextOfNewModule(c, req);
    PrintWithComponent(t, c);
  }

  lemma PrintWithComponent(t: seq<NodeTrace>, c: TraceComponent)
    requires t != []
    ensures Print(SetModules(t, Last(t).modules + [c])) ==
            Print(t) + ((if Last(t).modules == [] then "" else "/") + ModuleText(c))
  {
    var n := Last(t);
    OneMoreModule(n.modules, c);
    FrontAndLast(t);
    LongerTrace(Front(t), n, NodeTrace(n.host, n.modules + [c]),
                (if n.modules == [] then "" else "/") + ModuleText(c));
  }

  lemma TextOfNewModule(c: TraceComponent, req: ReqNum)
    requires c.reqs == [req]
    ensures ModuleText(c) == Signed(c.moduleID) + "," + Signed(c.gateID) + ":" + Decimal(req)
  {
    assert RequestTexts([req]) == [Decimal(req)];
  }

  lemma OneMoreModule(ms: seq<TraceComponent>, c: TraceComponent)
    ensures ModulesText(ms + [c]) == ModulesText(ms) + ((if ms == [] then "" else "/") + ModuleText(c))
  {
    assert ModuleTexts(ms + [c]) == ModuleTexts(ms) + [ModuleText(c)];
    JoinNext(ModuleTexts(ms), ModuleText(c), '/');
    if ms == [] {
      assert "" + ("" + ModuleText(c)) == ModuleText(c);
    } else {
      Regroup(ModulesText(ms), "/", ModuleText(c));
    }
  }

  lemma ColonInPrint(t: seq<NodeTrace>)
    requires HasModule(t)
    ensures ':' in Print(t)
  {
    HasColon(Last(t).modules);
    assert ':' in NodeTexts(t)[|t| - 1];
    JoinContains(NodeTexts(t), '|', ':');
  }

  /** For any host names, a duplicate with one more request number fits its parent exactly if the last
      module of the parent has a request number; an unchanged duplicate never does. */
  lemma SubRequestFits(t: seq<NodeTrace>, req: ReqNum)
    requires HasModule(t)
    ensures Fits(Print(WithRequest(t, req)), Print(t)) <==> HasRequest(t)
    ensures !Fits(Print(t), Print(t))
  {
    var (parent, child) := (Print(t), Print(WithRequest(t, req)));
    PrintWithRequest(t, req);
    if HasRequest(t) {
      ColonInPrint(t);
      Regroup(parent, ".", Decimal(req));
      assert Extends(child, parent, Decimal(req));
    } else {
      assert IsDigit(child[|parent|]);
      forall d ensures !Extends(child, parent, d) {
        assert (parent + "." + d)[|parent|] == '.';
      }
    }
  }

  // ---------------------------------------------------------------- and nothing else does

  /** A node that adds neither a dot nor a colon to the printed trace. */
  predicate Bare(n: NodeTrace) { n.modules == [] && '.' !in n.host && ':' !in n.host }

  predicate AllBare(t: seq<NodeTrace>) { forall i :: 0 <= i < |t| ==> Bare(t[i]) }

  /** The child is the parent with a request number added to its last module, possibly followed by
      nodes that the message has entered without reaching a module. */
  ghost predicate IsSubRequest(child: seq<NodeTrace>, parent: seq<NodeTrace>) {
    && HasRequest(parent) && |parent| <= |child|
    && AllBare(child[|parent|..])
    && exists req: ReqNum :: child[..|parent|] == WithRequest(parent, req)
  }

  predicate Quiet(s: string) { '.' !in s && ':' !in s }

  lemma QuietField(s: string, sep: char, i: nat)
    requires Quiet(s) && i < |Split(s, sep)|
    ensures Quiet(Split(s, sep)[i])
  {
    if '.' in Split(s, sep)[i] {
      SplitChars(s, sep, i, '.');
    }
    if ':' in Split(s, sep)[i] {
      SplitChars(s, sep, i, ':');
    }
  }

  /** The fields of a dot with a quiet text behind it. */
  lemma SplitTail(d: string, sep: char)
    requires sep != '.'
    ensures Split("." + d, sep) == ["." + Split(d, sep)[0]] + Split(d, sep)[1..]
  {
    SplitField(".", sep);
    SplitConcat(".", d, sep);
  }

  /** If the fields of a text are as many as those of the text without its tail, the tail has no
      separator. */
  lemma TailInLastField(a: seq<string>, s: string, tail: string, sep: char)
    requires Split(s + tail, sep) == a && |a| == |Split(s, sep)|
    ensures a == Split(s, sep)[..|a| - 1] + [Split(s, sep)[|a| - 1] + tail]
  {
    SplitConcat(s, tail, sep);
    JoinSplit(tail, sep);
    assert Split(tail, sep) == [Split(tail, sep)[0]];
  }

  lemma SplitDot(d: string)
    requires Quiet(d)
    ensures Split("." + d, '.') == ["", d]
  {
    assert "" + "." == ".";
    SplitNext("", '.', '.');
    assert Split(".", '.') == ["", ""];
    SplitField(d, '.');
    SplitConcat(".", d, '.');
    assert "" + d == d;
  }

  lemma SplitBeforeDot(s: string, d: string)
    requires Quiet(d)
    ensures Split(s + ("." + d), '.') == Split(s, '.') + [d]
  {
    SplitDot(d);
    SplitConcat(s, "." + d, '.');
    FusedEmpty(Split(s, '.'));
    assert Fused(Split(s, '.'), [""] + [d]) == Fused(Split(s, '.'), [""]) + [d];
  }

  lemma TailOfRequests(c: seq<ReqNum>, p: seq<ReqNum>, d: string)
    requires RequestsText(c) == RequestsText(p) + ("." + d) && Quiet(d)
    ensures p != [] && c != [] && c[..|c| - 1] == p
  {
    assert c != [] ==> RequestTexts(c)[0] != "";
    SplitBeforeDot(RequestsText(p), d);
    SplitRequests(c);
    SplitRequests(p);
    assert RequestTexts(c[..|c| - 1]) == RequestTexts(c)[..|c| - 1];
    DecimalsAreInjective(c[..|c| - 1], p);
  }

  lemma TailOfModule(c: TraceComponent, p: TraceComponent, d: string)
    requires ModuleText(c) == ModuleText(p) + ("." + d) && Quiet(d)
    ensures p.reqs != [] && c.reqs != [] && p == c.(reqs := c.reqs[..|c.reqs| - 1])
  {
    var (a, b) := (Split(ModuleText(c), ':'), Split(ModuleText(p), ':'));
    SplitModule(c);
    SplitModule(p);
    TailInLastField(a, ModuleText(p), "." + d, ':');
    assert a[0] == b[0] && a[1] == b[1] + ("." + d);
    SplitIds(c);
    SplitIds(p);
    SignedIsInjective(c.moduleID, p.moduleID);
    SignedIsInjective(c.gateID, p.gateID);
    TailOfRequests(c.reqs, p.reqs, d);
  }

  lemma NoModules(ms: seq<TraceComponent>, s: string)
    requires ':' !in s && s != ""
    ensures ModulesText(ms) != s
  {
    HasColon(ms);
  }

  lemma NoModule(m: TraceComponent, s: string)
    requires Quiet(s)
    ensures ModuleText(m) != s
  {
    assert ModuleText(m)[|Head(m)| - 1] == ':';
  }

  lemma TailOfModules(c: seq<TraceComponent>, p: seq<TraceComponent>, d: string)
    requires ModulesText(c) == ModulesText(p) + ("." + d) && Quiet(d)
    ensures p != [] && |c| == |p| && Front(c) == Front(p) && ModuleText(Last(c)) == ModuleText(Last(p)) + ("." + d)
  {
    var x := "." + d;
    assert ModulesText([]) + x == x;
    NoModules(c, x);
    HasColon(p);
    HasColon(c);
    SplitModules(c);
    SplitModules(p);
    SplitConcat(ModulesText(p), x, '/');
    SplitTail(d, '/');
    if |c| > |p| {
      QuietField(d, '/', 1);
      assert ModuleTexts(c)[|p|] == Split(d, '/')[1];
      NoModule(c[|p|], Split(d, '/')[1]);
    }
    TailInLastField(ModuleTexts(c), ModulesText(p), x, '/');
    ModuleTextsAgree(c, p);
    assert ModuleTexts(c)[|c| - 1] == ModuleTexts(p)[|p| - 1] + x;
  }

  lemma ModuleTextsAgree(c: seq<TraceComponent>, p: seq<TraceComponent>)
    requires |c| == |p| && p != [] && forall i :: 0 <= i < |p| - 1 ==> ModuleTexts(c)[i] == ModuleTexts(p)[i]
    ensures Front(c) == Front(p)
  {
    forall i | 0 <= i < |p| - 1 ensures c[i] == p[i] {
      assert ModuleTexts(c)[i] == ModuleTexts(p)[i];
      ModuleIsInjective(c[i], p[i]);
    }
  }

  /** The modules of a node with one more request number in the last of them. */
  function WithNumber(ms: seq<TraceComponent>, req: ReqNum): seq<TraceComponent>
    requires ms != []
  {
    var m := Last(ms);
    Front(ms) + [TraceComponent(m.moduleID, m.gateID, m.reqs + [req])]
  }

  lemma ModulesOfSubRequest(c: seq<TraceComponent>, p: seq<TraceComponent>, d: string) returns (req: ReqNum)
    requires ModulesText(c) == ModulesText(p) + ("." + d) && Quiet(d)
    ensures p != [] && Last(p).reqs != [] && c == WithNumber(p, req)
  {
    TailOfModules(c, p, d);
    TailOfModule(Last(c), Last(p), d);
    req := Last(Last(c).reqs);
    ModulesRegained(c, p);
  }

  /** The last node of the parent, in the child: its modules have one more number, and what is left of
      the text goes to the host of the next node. */
  lemma LastNodeIsSubRequest(c: seq<NodeTrace>, p: seq<NodeTrace>, d: string) returns (req: ReqNum)
    requires 0 < |p| <= |c| && Field(c, |p|) == Field(p, |p|) + ("." + d) && Quiet(d)
    ensures var (m, m') := (c[|p| - 1].modules, Last(p).modules);
            m' != [] && Last(m').reqs != [] && m == WithNumber(m', req)
    ensures |c| > |p| ==> Quiet(c[|p|].host)
  {
    var (m, m') := (c[|p| - 1].modules, Last(p).modules);
    if |c| == |p| {
      req := ModulesOfSubRequest(m, m', d);
    } else {
      ModulesChars(m, '|');
      ModulesChars(m', '|');
      var (host, k) := (c[|p|].host, |ModulesText(m)| - |ModulesText(m')|);
      FirstBar(ModulesText(m), host, ModulesText(m'), "." + d);
      assert ("." + d)[..k] == "." + d[..k - 1];
      req := ModulesOfSubRequest(m, m', d[..k - 1]);
    }
  }

  lemma ModulesRegained(c: seq<TraceComponent>, p: seq<TraceComponent>)
    requires c != [] && p != [] && Front(c) == Front(p) && Last(c).reqs != []
    requires Last(p) == Last(c).(reqs := Front(Last(c).reqs))
    ensures c == Front(p) + [TraceComponent(Last(p).moduleID, Last(p).gateID, Last(p).reqs + [Last(Last(c).reqs)])]
  {
    var reqs := Last(c).reqs;
    assert reqs == Front(reqs) + [Last(reqs)];
    assert c == Front(c) + [Last(c)];
  }

  lemma QuietFieldIsBare(t: seq<NodeTrace>, i: nat)
    requires 0 < i <= |t| && Quiet(Field(t, i))
    ensures t[i - 1].modules == [] && (i < |t| ==> Quiet(t[i].host))
  {
    HasColon(t[i - 1].modules);
    assert forall c :: c in ModulesText(t[i - 1].modules) || (i < |t| && c in t[i].host) ==> c in Field(t, i);
  }

  /** The exact meaning of the string comparison: a sub-request always fits its parent, and when no host
      has an '@' in its name nothing else does. */
  lemma FitsExactly(c: seq<NodeTrace>, p: seq<NodeTrace>)
    ensures IsSubRequest(c, p) ==> Fits(Print(c), Print(p))
    ensures PlainHosts(c) && PlainHosts(p) ==> (Fits(Print(c), Print(p)) <==> IsSubRequest(c, p))
  {
    if PlainHosts(c) && PlainHosts(p) && Fits(Print(c), Print(p)) {
      var d :| Extends(Print(c), Print(p), d);
      FittingIsSubRequest(c, p, d);
    }
    if IsSubRequest(c, p) {
      var req: ReqNum :| c[..|p|] == WithRequest(p, req);
      assert c == WithRequest(p, req) + c[|p|..];
      SubRequestIsFitting(p, req, c[|p|..]);
    }
  }

  lemma PrintOneMore(t: seq<NodeTrace>, n: NodeTrace)
    requires t != []
    ensures Print(t + [n]) == Print(t) + ("|" + NodeText(n))
  {
    assert NodeTexts(t + [n]) == NodeTexts(t) + [NodeText(n)];
    JoinNext(NodeTexts(t), NodeText(n), '|');
    Regroup(Print(t), "|", NodeText(n));
  }

  lemma BareIsQuiet(n: NodeTrace)
    requires Bare(n)
    ensures Quiet("|" + NodeText(n))
  {
    assert NodeText(n) == n.host + "@" + "";
  }

  lemma {:induction false} BareTail(t: seq<NodeTrace>, e: seq<NodeTrace>) returns (tail: string)
    requires t != [] && AllBare(e)
    ensures Print(t + e) == Print(t) + tail && Quiet(tail)
  {
    if e == [] {
      assert t + e == t;
      tail := "";
    } else {
      var before := BareTail(t, Front(e));
      var more := "|" + NodeText(Last(e));
      assert t + e == t + Front(e) + [Last(e)];
      PrintOneMore(t + Front(e), Last(e));
      BareIsQuiet(Last(e));
      Regroup(Print(t), before, more);
      tail := before + more;
    }
  }

  lemma SubRequestIsFitting(p: seq<NodeTrace>, req: ReqNum, e: seq<NodeTrace>)
    requires HasRequest(p) && AllBare(e)
    ensures Fits(Print(WithRequest(p, req) + e), Print(p))
  {
    var child := WithRequest(p, req);
    var tail := BareTail(child, e);
    PrintWithRequest(p, req);
    ColonInPrint(p);
    Regroup(Print(p), ".", Decimal(req));
    Regroup(Print(p) + ".", Decimal(req), tail);
    assert Extends(Print(child + e), Print(p), Decimal(req) + tail);
  }

  /** The fields of a child whose text is that of the parent, a dot and a text with the fields g. */
  function ChildField(p: seq<NodeTrace>, g: seq<string>, i: nat): string
    requires p != [] && i < |p| + |g|
  {
    if i < |p| then Field(p, i) else if i == |p| then Field(p, |p|) + ("." + g[0]) else g[i - |p|]
  }

  ghost predicate HasChildFields(c: seq<NodeTrace>, p: seq<NodeTrace>, g: seq<string>) {
    && p != [] && c != [] && g != [] && |c| == |p| + |g| - 1
    && forall i :: 0 <= i <= |c| ==> Field(c, i) == ChildField(p, g, i)
  }

  lemma FittingIsSubRequest(c: seq<NodeTrace>, p: seq<NodeTrace>, d: string)
    requires PlainHosts(c) && PlainHosts(p) && Extends(Print(c), Print(p), d) && ':' in Print(p)
    ensures IsSubRequest(c, p)
  {
    var g := Split(d, '@');
    forall i | 0 <= i < |g| ensures Quiet(g[i]) {
      QuietField(d, '@', i);
    }
    FieldsOfChild(c, p, d);
    NodesOf(c, p, g);
  }

  lemma FieldsOfChild(c: seq<NodeTrace>, p: seq<NodeTrace>, d: string)
    requires PlainHosts(c) && PlainHosts(p) && Extends(Print(c), Print(p), d) && ':' in Print(p)
    ensures HasChildFields(c, p, Split(d, '@'))
  {
    var (f, f', g) := (Split(Print(c), '@'), Split(Print(p), '@'), Split(d, '@'));
    assert p != [] && Print(c) != "" && c != [];
    Regroup(Print(p), ".", d);
    SplitTrace(c);
    SplitTrace(p);
    SplitConcat(Print(p), "." + d, '@');
    SplitTail(d, '@');
    assert f == Fused(f', ["." + g[0]] + g[1..]);
    ChildFields(f, f', c, p, g);
  }

  lemma ChildFields(f: seq<string>, f': seq<string>, c: seq<NodeTrace>, p: seq<NodeTrace>, g: seq<string>)
    requires AreFields(f, c) && AreFields(f', p) && g != [] && f == Fused(f', ["." + g[0]] + g[1..])
    ensures HasChildFields(c, p, g)
  {
    forall i | 0 <= i <= |c| ensures Field(c, i) == ChildField(p, g, i) {
      FusedAt(f', "." + g[0], g, i);
      assert f[i] == Field(c, i) && (i <= |p| ==> f'[i] == Field(p, i));
    }
  }

  lemma FusedAt(a: seq<string>, x: string, g: seq<string>, i: nat)
    requires a != [] && g != [] && i < |a| - 1 + |g|
    ensures Fused(a, [x] + g[1..])[i] ==
            if i < |a| - 1 then a[i] else if i == |a| - 1 then a[i] + x else g[i - |a| + 1]
  {}

  lemma NodesOf(c: seq<NodeTrace>, p: seq<NodeTrace>, g: seq<string>)
    requires HasChildFields(c, p, g) && forall i :: 0 <= i < |g| ==> Quiet(g[i])
    ensures IsSubRequest(c, p)
  {
    assert Field(c, |p|) == ChildField(p, g, |p|);
    var req := LastNodeIsSubRequest(c, p, g[0]);
    SameFront(c, p, g);
    ParentIsPrefix(c, p, req);
    forall i | |p| <= i < |c| ensures Bare(c[i]) {
      RestIsBare(c, p, g, i);
    }
  }

  lemma SameFront(c: seq<NodeTrace>, p: seq<NodeTrace>, g: seq<string>)
    requires HasChildFields(c, p, g)
    ensures forall i :: 0 <= i < |p| ==> c[i].host == p[i].host
    ensures forall i :: 0 <= i < |p| - 1 ==> c[i].modules == p[i].modules
  {
    forall i | 0 <= i < |p| ensures c[i].host == p[i].host {
      FrontField(c, p, g, i);
    }
    forall i | 0 <= i < |p| - 1 ensures c[i].modules == p[i].modules {
      FrontField(c, p, g, i + 1);
    }
  }

  lemma FrontField(c: seq<NodeTrace>, p: seq<NodeTrace>, g: seq<string>, i: nat)
    requires HasChildFields(c, p, g) && i < |p|
    ensures c[i].host == p[i].host && (i > 0 ==> c[i - 1].modules == p[i - 1].modules)
  {
    assert Field(c, i) == ChildField(p, g, i);
    SameFields(c, p, i);
  }

  lemma ParentIsPrefix(c: seq<NodeTrace>, p: seq<NodeTrace>, req: ReqNum)
    requires HasModule(p) && |p| <= |c| && c[|p| - 1].modules == WithNumber(Last(p).modules, req)
    requires forall i :: 0 <= i < |p| ==> c[i].host == p[i].host
    requires forall i :: 0 <= i < |p| - 1 ==> c[i].modules == p[i].modules
    ensures c[..|p|] == WithRequest(p, req)
  {
    forall i | 0 <= i < |p| ensures c[i] == WithRequest(p, req)[i] {
      assert c[i].host == p[i].host;
    }
  }

  lemma RestIsQuiet(c: seq<NodeTrace>, p: seq<NodeTrace>, g: seq<string>, i: nat)
    requires HasChildFields(c, p, g) && (forall i :: 0 <= i < |g| ==> Quiet(g[i])) && |p| < i <= |c|
    ensures Quiet(Field(c, i))
  {
    assert Field(c, i) == ChildField(p, g, i) == g[i - |p|];
  }

  lemma RestIsBare(c: seq<NodeTrace>, p: seq<NodeTrace>, g: seq<string>, i: nat)
    requires HasChildFields(c, p, g) && forall i :: 0 <= i < |g| ==> Quiet(g[i])
    requires |p| <= i < |c| && (i == |p| ==> Quiet(c[i].host))
    ensures Bare(c[i])
  {
    RestHasNoModules(c, p, g, i + 1);
    if i > |p| {
      RestHasNoModules(c, p, g, i);
    }
  }

  lemma RestHasNoModules(c: seq<NodeTrace>, p: seq<NodeTrace>, g: seq<string>, i: nat)
    requires HasChildFields(c, p, g) && (forall i :: 0 <= i < |g| ==> Quiet(g[i])) && |p| < i <= |c|
    ensures c[i - 1].modules == [] && (i < |c| ==> Quiet(c[i].host))
  {
    RestIsQuiet(c, p, g, i);
    QuietFieldIsBare(c, i);
  }

  /** With an '@' in a host name a message fits a parent that it does not come from: host "h@1,2:0.5"
      prints as host "h" does with a module and one more number. */
  lemma HostWithAtMisleads()
    ensures var (p, c) := ([NodeTrace("h", [TraceComponent(1, 2, [0])])], [NodeTrace("h@1,2:0.5", [])]);
            Fits(Print(c), Print(p)) && !IsSubRequest(c, p)
  {
    var m := TraceComponent(1, 2, [0]);
    var (p, c) := ([NodeTrace("h", [m])], [NodeTrace("h@1,2:0.5", [])]);
    assert RequestTexts([0]) == ["0"] && RequestsText([0]) == "0" && ModuleText(m) == "1,2:0";
    assert ModuleTexts([m]) == ["1,2:0"] && ModulesText([m]) == "1,2:0";
    assert ModuleTexts([]) == [] && ModulesText([]) == "";
    assert NodeText(p[0]) == "h@1,2:0" && NodeText(c[0]) == "h@1,2:0.5@";
    assert NodeTexts(p) == ["h@1,2:0"] && NodeTexts(c) == ["h@1,2:0.5@"];
    assert Extends(Print(c), Print(p), "5@");
    forall req: ReqNum ensures c[..|p|] != WithRequest(p, req) {
      assert Last(WithRequest(p, req)).modules != [];
    }
  }
}
