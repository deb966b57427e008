/** Introspection: what the XML generator of aj_introspect.c hands to its writer, and for which object. */
module Introspect {
  import opened Common
  import opened Signatures
  import opened Identify

  // ---- What the generator hands to its writer ----

  /** One call of the writer: a string, and how many of its characters; 0 stands for all of it. */
  datatype Part = Part(str: string, len: nat) {
    predicate Inside() { len <= |str| }
    function Text(): string
      requires Inside()
    {
      if len == 0 then str else str[..len]
    }
  }

  /** No call reaches behind the end of its string. */
  type Piece = p: Part | p.Inside() witness Part("", 0)

  function Whole(s: string): Piece {
    Part(s, 0)
  }

  /** A string literal and its length. */
  function Literal(s: string): Piece {
    Part(s, |s|)
  }

  /** How many characters come before the first for which `stop` holds. */
  function Reach(s: string, stop: char -> bool): (n: nat)
    ensures n <= |s| && (forall i :: 0 <= i < n ==> !stop(s[i])) && (n < |s| ==> stop(s[n]))
  {
    if s == "" || stop(s[0]) then 0 else 1 + Reach(s[1..], stop)
  }

  predicate IsDirection(c: char) {
    '<' <= c <= '>'
  }

  /** What ends an attribute. */
  predicate Ends(c: char) {
    IsDirection(c) || c == ' '
  }

  predicate IsSlash(c: char) {
    c == '/'
  }

  /** The character that ended an attribute, what follows it, and what was written. */
  datatype Expanded = Expanded(next: char, rest: string, out: seq<Piece>)

  /** ExpandAttribute. */
  function ExpandAttribute(s: string, pre: string, post: string): (e: Expanded)
    ensures |e.rest| <= |s| && (s != "" ==> |e.rest| < |s|)
  {
    var n := Reach(s, Ends);
    Expanded(At(s, n), if n < |s| then s[n + 1..] else "", [Whole(pre), Part(s, n), Whole(post)])
  }

  /** XMLWriteTag, which always has a name attribute. */
  function Tag(tag: string, val: Piece, atom: bool): seq<Piece> {
    [Whole(tag), Whole(" name=\""), val, Literal("\""), if atom then Literal("/>\n") else Literal(">\n")]
  }

  /** XMLWriteDescription. */
  function Description(level: nat, text: string, language: string): seq<Piece> {
    seq(level, _ => Literal("    ")) + [Literal("<description")]
    + (if language != "" then [Literal(" language=\""), Whole(language), Literal("\"")] else [])
    + [Literal(">"), Whole(text), Literal("</description>\n")]
  }

  /** The descriptions registered for a list of objects, if there are any; a language may be asked for. */
  datatype Descriptions = NoLookup | Lookup(find: nat -> Option<string>) {
    function Get(id: nat): Option<string> {
      match this case NoLookup => None case Lookup(f) => f(id)
    }
  }

  /** What is asked for in an object's XML: a language, and the descriptions found for the object's list. */
  datatype Ask = Ask(language: Option<string>, descriptions: Descriptions) {
    function Described(level: nat, id: nat): seq<Piece> {
      match descriptions.Get(id)
      case None => []
      case Some(text) => Description(level, text, if language.Some? then language.value else "")
    }
  }

  /** The result of one octet's subtraction. */
  function Less(c: char, d: char): (n: nat)
    ensures n < 256
    ensures c as int < 256 && d as int < 256 ==> n == c as int - d as int || n == c as int - d as int + 256
  {
    (c as int - d as int) % 256
  }

  const PROPERTY := 2

  function Then(a: seq<Piece>, b: Option<seq<Piece>>): Option<seq<Piece>> {
    match b case None => None case Some(s) => Some(a + s)
  }

  /** One argument of a method or signal. */
  function Arg(member: string, signal: bool, id: nat, ask: Ask): (e: Option<Expanded>)
    ensures e.Some? ==> |e.value.rest| < |member|
  {
    var named := if IsDirection(At(member, 0)) then Expanded(member[0], member[1..], [])
      else ExpandAttribute(member, " name=\"", "\"");
    var dir := Less(named.next, IN_ARG);
    if dir != 0 && dir != 2 then None
    else
      var text := ask.descriptions.Get(id);
      var typed := ExpandAttribute(named.rest, " type=\"", ArgEnd(signal, dir, text.Some?));
      var described := if text.Some? then ask.Described(2, id) + [Literal("    </arg>\n")] else [];
      Some(Expanded(typed.next, typed.rest, [Literal("    <arg")] + named.out + typed.out + described))
  }

  function ArgEnd(signal: bool, dir: nat, described: bool): string {
    (if signal then "\"" else if dir == 0 then "\" direction=\"in\"" else "\" direction=\"out\"") + if described
      then ">\n" else "/>\n"
  }

  /** All that follow; `attr` is the character in front of the next one. */
  function ArgsFrom(member: string, attr: char, signal: bool, id: nat, argIndex: nat, ask: Ask): Option<seq<Piece>>
    decreases |member|
  {
    if attr == '\0' then Some([])
    else
      var index := (argIndex + 1) % 256;
      match Arg(member, signal, id + index, ask)
      case None => None
      case Some(e) => Then(e.out, ArgsFrom(e.rest, e.next, signal, id, index, ask))
  }

  /** The type and the access of a property; `next` is the character behind its name. */
  function Property(rest: string, next: char): Option<seq<Piece>> {
    var attr := if next == ' ' then At(rest, 0) else next;
    var typ := if next == ' ' && rest != "" then rest[1..] else rest;
    var acc := Less(attr, '<');
    if acc > 2 then None else Some(ExpandAttribute(typ, " type=\"", Access(acc)).out)
  }

  function Access(acc: nat): string {
    if acc == 0 then "\" access=\"write\"" else if acc == 1 then "\" access=\"readwrite\"" else "\" access=\"read\""
  }

  /** Signals say whether they are sessionless, if a language is asked for. */
  function SessionlessMark(memberType: nat, sessionless: bool, ask: Ask): seq<Piece> {
    if ask.language.Some? && memberType == SIGNAL then
      [Literal(" sessionless=\""), if sessionless && ask.descriptions.Lookup? then Literal("true\"")
        else Literal("false\"")]
    else []
  }

  function MemberOpen(memberType: nat): string {
    if memberType == SIGNAL then "  <signal" else if memberType == METHOD then "  <method" else "  <property"
  }

  function MemberClose(memberType: nat, described: bool): string {
    if memberType == SIGNAL then "  </signal>\n" else if memberType == METHOD then "  </method>\n"
    else if described then "  </property>\n" else "/>\n"
  }

  /** One member of an interface: a signal, a method or a property. */
  function Member(entry: string, id: nat, ask: Ask): Option<seq<Piece>>
    requires entry != ""
  {
    var memberType := MemberType(entry[0]) % 256;
    if memberType > PROPERTY then None
    else
      var sessionless := memberType == SIGNAL && At(entry, 1) == '&';
      var name := ExpandAttribute(entry[if sessionless then 2 else 1..], " name=\"", "\"");
      var described := ask.Described(1, id);
      var body := if memberType == PROPERTY then Property(name.rest, name.next)
                  else Then(SessionlessMark(memberType, sessionless, ask) + [Literal(">\n")],
                            ArgsFrom(name.rest, name.next, memberType == SIGNAL, id, 0, ask));
      match body
      case None => None
      case Some(b) =>
        Some([Whole(MemberOpen(memberType))] + name.out + b + described
        + [Whole(MemberClose(memberType, described != []))])
  }

  function Members(desc: seq<string>, from: nat, id: nat, ask: Ask): Option<seq<Piece>>
    requires IfaceOk(desc) && 1 <= from <= |desc|
    decreases |desc| - from
  {
    if from == |desc| then Some([])
    else
      match Member(desc[from], id + from % 256 * 0x100, ask)
      case None => None
      case Some(m) => Then(m, Members(desc, from + 1, id, ask))
  }

  /** Interfaces every object has; they are not annotated. */
  predicate IsStandard(name: string) {
    name == "#org.freedesktop.DBus.Introspectable" || name == "#org.freedesktop.DBus.Properties"
    || name == "#org.freedesktop.DBus.Peer" || name == "#org.allseen.Introspectable"
  }

  const ANNOTATE := "  <annotation name=\"org.alljoyn.Bus.Secure\" value=\""
  const SECURE_TRUE := "true\"/>\n"

  /** What is written of the mark in front of an interface's name. */
  function SecureNote(name: string): seq<Piece> {
    if Bare(name) == name || IsStandard(name) then []
    else [Literal(ANNOTATE), if At(name, 0) == '$' then Literal(SECURE_TRUE) else Literal("off\"/>\n")]
  }

  /** One interface: its name, whether it is secure, and its members. */
  function Interface(desc: seq<string>, id: nat, ask: Ask): Option<seq<Piece>>
    requires IfaceOk(desc)
  {
    var name := desc[0];
    match Members(desc, 1, id, ask)
    case None => None
    case Some(members) =>
      Some(Tag("<interface", Whole(Bare(name)), false) + SecureNote(name) + ask.Described(0, id)
        + members + [Literal("</interface>\n")])
  }

  /** ExpandInterfaces, from one interface on. */
  function Interfaces(interfaces: seq<seq<string>>, from: nat, id: nat, ask: Ask): Option<seq<Piece>>
    requires from <= |interfaces| && forall i :: 0 <= i < |interfaces| ==> IfaceOk(interfaces[i])
    decreases |interfaces| - from
  {
    if from == |interfaces| then Some([])
    else
      match Interface(interfaces[from], id + (from + 1) % 256 * 0x1_0000, ask)
      case None => None
      case Some(one) => Then(one, Interfaces(interfaces, from + 1, id, ask))
  }

  // ---- Objects ----

  /** An AJ_Object with its place: the list it is in and its number in it. */
  datatype Node = Node(path: string, interfaces: seq<seq<string>>, secure: bool, hidden: bool,
    disabled: bool, proxy: bool, list: nat, index: nat)

  const PROXY_LIST := 2

  /** What the object iterator shows; of an object in the proxy list it looks at the proxy flag only. */
  predicate Shown(n: Node) {
    !n.proxy && (n.list == PROXY_LIST || (!n.hidden && !n.disabled))
  }

  /** All registered objects in the order of the iterator, and the descriptions of each list. */
  datatype Tables = Tables(nodes: seq<Node>, descriptions: nat -> Descriptions) {
    predicate Ok() {
      forall k :: 0 <= k < |nodes| ==> forall i :: 0 <= i < |nodes[k].interfaces| ==> IfaceOk(nodes[k].interfaces[i])
    }
  }

  /** ChildPath: the name of the next node from `p` to `c`. */
  function ChildPath(p: string, c: string): (name: Option<Piece>)
    ensures name.Some? ==> name.value.len > 0
  {
    var parent := if p == "/" then "" else p;
    if parent <= c && At(c, |parent|) == '/' then
      var rest := c[|parent| + 1..];
      var len := Reach(rest, IsSlash);
      if len > 0 then Some(Part(rest, len)) else None
    else None
  }

  /** The name of the child of `path` that node `k` is, or is below, if the iterator shows it. */
  function ChildName(t: Tables, path: string, k: nat): Option<string>
    requires k < |t.nodes|
  {
    if Shown(t.nodes[k]) && ChildPath(path, t.nodes[k].path).Some?
      then Some(ChildPath(path, t.nodes[k].path).value.Text()) else None
  }

  /** Behind `parent` come a slash, the name of a child, and nothing or another slash. */
  predicate IsChild(parent: string, c: string, name: string) {
    var front := parent + "/" + name;
    name != "" && '/' !in name && front <= c && (|c| > |front| ==> c[|front|] == '/')
  }

  /** Which child of a path a node stands for: none if it is a proxy, or hidden or disabled and in another list. */
  lemma ChildNameIs(t: Tables, path: string, k: nat, name: string)
    requires k < |t.nodes|
    ensures var n := t.nodes[k]; var shown := !n.proxy && (n.list == 2 || (!n.hidden && !n.disabled));
      ChildName(t, path, k) == Some(name) <==> shown && IsChild(if path == "/" then "" else path, n.path, name)
  {
    hide IsChild, Reach, ChildPath;
    PathIs(path, t.nodes[k].path, name);
  }

  lemma PathIs(path: string, c: string, name: string)
    ensures var child := ChildPath(path, c);
      child.Some? && child.value.Text() == name <==> IsChild(if path == "/" then "" else path, c, name)
  {
    hide IsChild, Reach;
    var parent := if path == "/" then "" else path;
    FrontStarts(parent, name, c);
    if parent <= c && At(c, |parent|) == '/' {
      assert c == parent + ("/" + c[|parent| + 1..]);
      ReachName(parent, c[|parent| + 1..], name);
    }
  }

  lemma ReachName(parent: string, rest: string, name: string)
    ensures var n := Reach(rest, IsSlash);
      n > 0 && rest[..n] == name <==> IsChild(parent, parent + ("/" + rest), name)
  {
    var front, c, n := parent + "/" + name, parent + ("/" + rest), Reach(rest, IsSlash);
    assert c == (parent + "/") + rest && c[|parent| + 1..] == rest;
    assert front <= c <==> name <= rest;
  }

  lemma FrontStarts(parent: string, name: string, c: string)
    ensures IsChild(parent, c, name) ==> parent <= c && At(c, |parent|) == '/'
  {
    if IsChild(parent, c, name) {
      assert c[|parent|] == (parent + "/" + name)[|parent|];
    }
  }

  /** FirstInstance: the first node with this child name, from `from` on. */
  function FirstInstance(t: Tables, path: string, name: string, from: nat): (k: nat)
    requires from <= |t.nodes|
    ensures from <= k <= |t.nodes| && (k < |t.nodes| ==> ChildName(t, path, k) == Some(name))
    ensures forall j :: from <= j < k ==> ChildName(t, path, j) != Some(name)
    decreases |t.nodes| - from
  {
    if from == |t.nodes| || ChildName(t, path, from) == Some(name) then from else FirstInstance(t, path, name, from + 1)
  }

  /** The nodes that stand for the children of `path`, from one node on. */
  function Children(t: Tables, path: string, from: nat): seq<nat>
    requires from <= |t.nodes|
    decreases |t.nodes| - from
  {
    if from == |t.nodes| then []
    else
      var name := ChildName(t, path, from);
      (if name.Some? && FirstInstance(t, path, name.value, 0) == from then [from] else []) + Children(t, path, from + 1)
  }

  /** Each child of `path` is listed once, in the order of the nodes: of all nodes with a child name, the first. */
  lemma {:induction false} ChildrenAre(t: Tables, path: string, from: nat)
    requires from <= |t.nodes|
    ensures var c := Children(t, path, from);
      && (forall i :: 0 <= i < |c| ==> from <= c[i] < |t.nodes|) && (forall i, j :: 0 <= i < j < |c| ==> c[i] < c[j])
      && forall k :: from <= k < |t.nodes| ==> (k in c <==>
           ChildName(t, path, k).Some? && forall j :: 0 <= j < k ==> ChildName(t, path, j) != ChildName(t, path, k))
    decreases |t.nodes| - from
  {
    hide ChildName;
    if from < |t.nodes| {
      ChildrenAre(t, path, from + 1);
    }
  }

  /** SecurityApplies to an object as a whole. */
  predicate Secured(t: Tables, n: Node) {
    n.secure || exists k ::
      0 <= k < |t.nodes| && !t.nodes[k].proxy && t.nodes[k].secure && ChildPath(t.nodes[k].path, n.path).Some?
  }

  /** The object a request is for: a registered one, or the parent of one, which has no interfaces. */
  datatype Target = Listed(k: nat) | Parent(path: string)

  function AskFor(t: Tables, language: Option<string>, list: nat): Ask {
    Ask(language, if language.Some? then t.descriptions(list) else NoLookup)
  }

  /** The tag of a child, with its description if it has one. */
  function ChildTag(t: Tables, path: string, language: Option<string>, k: nat): seq<Piece>
    requires k < |t.nodes| && ChildName(t, path, k).Some?
  {
    var n := t.nodes[k];
    var described := AskFor(t, language, n.list).Described(0, n.index * 0x100_0000 % 0x1_0000_0000);
    Tag("<node", ChildPath(path, n.path).value, described == []) + described + if described == []
      then [] else [Literal("</node>\n")]
  }

  function ChildTags(t: Tables, path: string, language: Option<string>, children: seq<nat>): seq<Piece>
    requires forall i :: 0 <= i < |children| ==> children[i] < |t.nodes| && ChildName(t, path, children[i]).Some?
  {
    if children == [] then []
      else ChildTag(t, path, language, children[0]) + ChildTags(t, path, language, children[1..])
  }

  /** What GenXML hands to its writer; None if it gives up. */
  function XmlOf(t: Tables, target: Target, language: Option<string>): Option<seq<Piece>>
    requires t.Ok() && (target.Listed? ==> target.k < |t.nodes|)
  {
    var n := match target case Listed(k) => t.nodes[k] case Parent(path) =>
      Node(path, [], false, false, false, false, 0, 0);
    if n.hidden || n.disabled || n.proxy then Some([])
    else
      var id := n.index * 0x100_0000 % 0x1_0000_0000;
      var ask := if target.Listed? then AskFor(t, language, n.list) else Ask(language, NoLookup);
      var children := Children(t, n.path, 0);
      ChildrenAre(t, n.path, 0);
      match Interfaces(n.interfaces, 0, id, ask)
      case None => None
      case Some(interfaces) =>
        Some(Tag("<node", Whole(n.path), false)
          + (if Secured(t, n) then [Literal(ANNOTATE), Literal(SECURE_TRUE)] else []) + ask.Described(0, id)
             + interfaces + ChildTags(t, n.path, language, children) + [Literal("</node>\n")])
  }

  // ---- The object a request is for ----

  /** The search of AJ_HandleIntrospectRequest: the first node that has the path, or is below it. */
  function Select(t: Tables, path: string, from: nat): (target: Option<Target>)
    requires from <= |t.nodes|
    ensures target.Some? && target.value.Listed? ==> from <= target.value.k < |t.nodes|
    decreases |t.nodes| - from
  {
    if from == |t.nodes| then None
    else if Has(t, path, from) then Some(Listed(from))
    else if ChildName(t, path, from).Some? then Some(Parent(path))
    else Select(t, path, from + 1)
  }

  predicate Has(t: Tables, path: string, k: nat)
    requires k < |t.nodes|
  {
    Shown(t.nodes[k]) && t.nodes[k].path == path
  }

  /**
   A registered object is described if and only if no object below it comes first; otherwise its
   interfaces are left out.
   */
  lemma {:induction false} Selected(t: Tables, path: string, from: nat, k: nat)
    requires from <= k < |t.nodes| && Has(t, path, k) && forall j :: from <= j < k ==> !Has(t, path, j)
    ensures Select(t, path, from) == if forall j :: from <= j < k ==>
      ChildName(t, path, j).None? then Some(Listed(k)) else Some(Parent(path))
    decreases k - from
  {
    hide ChildName, Has;
    if from < k {
      Selected(t, path, from + 1, k);
    }
  }

  /** An object registered behind an object below it. */
  lemma ParentBehind(descriptions: nat -> Descriptions)
    ensures var t :=
      Tables([Node("/a/b", [], false, false, false, false, 1, 0),
      Node("/a", [["I"]], false, false, false, false, 1, 1)], descriptions);
      t.Ok() && Has(t, "/a", 1) && Select(t, "/a", 0) == Some(Parent("/a"))
  {
    var t := Tables([Node("/a/b", [], false, false, false, false, 1, 0),
      Node("/a", [["I"]], false, false, false, false, 1, 1)], descriptions);
    assert "/a" <= "/a/b" && At("/a/b", 2) == '/' && "/a/b"[3..] == "b";
    assert Reach("b", IsSlash) > 0;
    assert ChildName(t, "/a", 0).Some?;
  }
}
