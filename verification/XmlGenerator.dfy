/** The XML generator of aj_introspect.c, for any writer. */
module XmlGenerator {
  import opened Common
  import opened Wire
  import opened Signatures
  import opened Identify
  import opened Introspect
  import opened XmlWriter

  lemma ReachIs(s: string, stop: char -> bool, n: nat)
    requires n <= |s| && (forall i :: 0 <= i < n ==> !stop(s[i])) && (n < |s| ==> stop(s[n]))
    ensures Reach(s, stop) == n
  {
  }

  /** ExpandAttribute. */
  method WriteAttribute(w: Writer, s: string, pre: string, post: string) returns (next: char, rest: string)
    requires w.Valid()
    modifies w.Frame()
    ensures
      && w.Valid()
      && (var e := ExpandAttribute(s, pre, post); next == e.next && rest == e.rest && w.out == old(w.out) + e.out)
  {
    hide Writer.Valid;
    ghost var before := w.out;
    w.Write(Whole(pre));
    next := '\0';
    var len, i := 0, 0;
    while i < |s|
      invariant i == len <= |s| && next == '\0' && forall j :: 0 <= j < len ==> !Ends(s[j])
    {
      var c := s[i];
      i := i + 1;
      if Ends(c) {
        next := c;
        break;
      }
      len := len + 1;
    }
    ReachIs(s, Ends, len);
    w.Write(Part(s, len));
    w.Write(Whole(post));
    rest := s[i..];
    assert w.out == before + [Whole(pre), Part(s, len), Whole(post)];
  }

  /** XMLWriteTag. */
  method WriteTag(w: Writer, tag: string, val: Piece, atom: bool)
    requires w.Valid()
    modifies w.Frame()
    ensures w.Valid() && w.out == old(w.out) + Tag(tag, val, atom)
  {
    hide Writer.Valid;
    ghost var before := w.out;
    w.Write(Whole(tag));
    w.Write(Whole(" name=\""));
    w.Write(val);
    w.Write(Literal("\""));
    if atom {
      w.Write(Literal("/>\n"));
    } else {
      w.Write(Literal(">\n"));
    }
    assert w.out == before + Tag(tag, val, atom);
  }

  /** XMLWriteDescription, of the description with this number, if there is one. */
  method WriteDescription(w: Writer, level: nat, id: nat, ask: Ask) returns (described: bool)
    requires w.Valid()
    modifies w.Frame()
    ensures w.Valid() && w.out == old(w.out) + ask.Described(level, id) && described == (ask.Described(level, id) != [])
  {
    hide Writer.Valid;
    ghost var before := w.out;
    var text := ask.descriptions.Get(id);
    if text.None? {
      return false;
    }
    for i := 0 to level
      invariant w.Valid() && w.out == before + seq(i, _ => Literal("    "))
    {
      w.Write(Literal("    "));
      assert seq(i + 1, _ => Literal("    ")) == seq(i, _ => Literal("    ")) + [Literal("    ")];
    }
    var language := if ask.language.Some? then ask.language.value else "";
    ghost var out, l := seq(level, _ => Literal("    ")), if language != ""
      then [Literal(" language=\""), Whole(language), Literal("\"")] else [];
    w.Write(Literal("<description"));
    Assoc(before, out, [Literal("<description")]);
    out := out + [Literal("<description")];
    WriteLanguage(w, language);
    Assoc(before, out, l);
    out := out + l;
    ghost var rest: seq<Piece> := [Literal(">"), Whole(text.value), Literal("</description>\n")];
    w.Write(Literal(">"));
    w.Write(Whole(text.value));
    w.Write(Literal("</description>\n"));
    assert w.out == (before + out) + rest;
    Assoc(before, out, rest);
    return true;
  }

  method WriteLanguage(w: Writer, language: string)
    requires w.Valid()
    modifies w.Frame()
    ensures
      && w.Valid()
      && w.out == old(w.out) + if language != "" then [Literal(" language=\""), Whole(language), Literal("\"")] else []
  {
    hide Writer.Valid;
    ghost var before := w.out;
    if language != "" {
      w.Write(Literal(" language=\""));
      w.Write(Whole(language));
      w.Write(Literal("\""));
      assert w.out == before + [Literal(" language=\""), Whole(language), Literal("\"")];
    } else {
      assert before + [] == before;
    }
  }

  /** One turn of the loop over a member's arguments. */
  method WriteArg(w: Writer, member: string, signal: bool, id: nat, ask: Ask)
    returns (status: Status, next: char, rest: string)
    requires w.Valid()
    modifies w.Frame()
    ensures w.Valid() && status == if Arg(member, signal, id, ask).Some? then OK else ErrUnexpected
    ensures status == OK ==>
      (var e := Arg(member, signal, id, ask).value; next == e.next && rest == e.rest && w.out == old(w.out) + e.out)
  {
    hide Writer.Valid, Ask.Described, ExpandAttribute, ArgEnd;
    ghost var before := w.out;
    w.Write(Literal("    <arg"));
    ghost var out: seq<Piece> := [Literal("    <arg")];
    next, rest := At(member, 0), "";
    if IsDirection(next) {
      rest := member[1..];
      assert out + [] == out;
    } else {
      next, rest := WriteAttribute(w, member, " name=\"", "\"");
      ghost var e := ExpandAttribute(member, " name=\"", "\"");
      Assoc(before, out, e.out);
      out := out + e.out;
    }
    var dir := Less(next, IN_ARG);
    if dir != 0 && dir != 2 {
      return ErrUnexpected, next, rest;
    }
    var text := ask.descriptions.Get(id);
    ghost var typed := ExpandAttribute(rest, " type=\"", ArgEnd(signal, dir, text.Some?));
    next, rest := WriteAttribute(w, rest, " type=\"", ArgEnd(signal, dir, text.Some?));
    Assoc(before, out, typed.out);
    out := out + typed.out;
    if text.Some? {
      var _ := WriteDescription(w, 2, id, ask);
      w.Write(Literal("    </arg>\n"));
      Assoc(before, out, ask.Described(2, id));
      Assoc(before, out + ask.Described(2, id), [Literal("    </arg>\n")]);
      Assoc(out, ask.Described(2, id), [Literal("    </arg>\n")]);
    } else {
      assert out + [] == out;
    }
    status := OK;
  }

  lemma ThenThen(a: seq<Piece>, b: seq<Piece>, c: Option<seq<Piece>>)
    ensures Then(a, Then(b, c)) == Then(a + b, c)
    ensures Then([], c) == c
  {
    if c.Some? {
      assert a + (b + c.value) == a + b + c.value && [] + c.value == c.value;
    }
  }

  /** The loop over a member's arguments. */
  method WriteArgs(w: Writer, member: string, attr: char, signal: bool, id: nat, ask: Ask) returns (status: Status)
    requires w.Valid()
    modifies w.Frame()
    ensures w.Valid() && status == if ArgsFrom(member, attr, signal, id, 0, ask).Some? then OK else ErrUnexpected
    ensures status == OK ==> w.out == old(w.out) + ArgsFrom(member, attr, signal, id, 0, ask).value
  {
    hide Writer.Valid, Arg;
    ghost var before, done := w.out, [];
    var at, next, argIndex: nat := member, attr, 0;
    ThenThen([], [], ArgsFrom(member, attr, signal, id, 0, ask));
    assert w.out == before + done;
    while next != '\0'
      invariant w.Valid() && w.out == before + done
      invariant ArgsFrom(member, attr, signal, id, 0, ask) == Then(done, ArgsFrom(at, next, signal, id, argIndex, ask))
      decreases |at|
    {
      argIndex := (argIndex + 1) % 256;
      ghost var arg := Arg(at, signal, id + argIndex, ask);
      status, next, at := WriteArg(w, at, signal, id + argIndex, ask);
      if status != OK {
        return;
      }
      ThenThen(done, arg.value.out, ArgsFrom(at, next, signal, id, argIndex, ask));
      done := done + arg.value.out;
    }
    status := OK;
    assert done + [] == done;
  }

  /** The type and the access of a property. */
  method WriteProperty(w: Writer, rest: string, next: char) returns (status: Status)
    requires w.Valid()
    modifies w.Frame()
    ensures w.Valid() && status == if Property(rest, next).Some? then OK else ErrUnexpected
    ensures status == OK ==> w.out == old(w.out) + Property(rest, next).value
  {
    hide Writer.Valid, ExpandAttribute, Access;
    var attr, typ := next, rest;
    if attr == ' ' {
      attr := At(rest, 0);
      typ := if rest != "" then rest[1..] else "";
    }
    var acc := Less(attr, '<');
    if acc > 2 {
      return ErrUnexpected;
    }
    var _, _ := WriteAttribute(w, typ, " type=\"", Access(acc));
    status := OK;
  }

  /** The rest of a method or signal, behind its name. */
  method WriteSignature(w: Writer, rest: string, next: char, memberType: nat, sessionless: bool, id: nat, ask: Ask)
    returns (status: Status)
    requires w.Valid()
    modifies w.Frame()
    ensures var body :=
      Then(SessionlessMark(memberType, sessionless, ask) + [Literal(">\n")],
      ArgsFrom(rest, next, memberType == SIGNAL, id, 0, ask));
      && w.Valid() && status == (if body.Some? then OK else ErrUnexpected)
      && (status == OK ==> w.out == old(w.out) + body.value)
  {
    hide Writer.Valid, ArgsFrom;
    ghost var before := w.out;
    if ask.language.Some? && memberType == SIGNAL {
      w.Write(Literal(" sessionless=\""));
      if sessionless && ask.descriptions.Lookup? {
        w.Write(Literal("true\""));
      } else {
        w.Write(Literal("false\""));
      }
    }
    w.Write(Literal(">\n"));
    assert w.out == before + (SessionlessMark(memberType, sessionless, ask) + [Literal(">\n")]);
    status := WriteArgs(w, rest, next, memberType == SIGNAL, id, ask);
  }

  /** One member. */
  method WriteMember(w: Writer, entry: string, id: nat, ask: Ask) returns (status: Status)
    requires w.Valid() && entry != ""
    modifies w.Frame()
    ensures w.Valid() && status == if Member(entry, id, ask).Some? then OK else ErrUnexpected
    ensures status == OK ==> w.out == old(w.out) + Member(entry, id, ask).value
  {
    hide Writer.Valid, ArgsFrom, Property, SessionlessMark, ExpandAttribute, Ask.Described, MemberOpen, MemberClose;
    ghost var before := w.out;
    var memberType := MemberType(entry[0]) % 256;
    if memberType > PROPERTY {
      return ErrUnexpected;
    }
    w.Write(Whole(MemberOpen(memberType)));
    ghost var out: seq<Piece> := [Whole(MemberOpen(memberType))];
    var sessionless := memberType == SIGNAL && At(entry, 1) == '&';
    var name := entry[if sessionless then 2 else 1..];
    var next, rest := WriteAttribute(w, name, " name=\"", "\"");
    ghost var e := ExpandAttribute(name, " name=\"", "\"");
    Assoc(before, out, e.out);
    out := out + e.out;
    ghost var body;
    if memberType == PROPERTY {
      body := Property(rest, next);
      status := WriteProperty(w, rest, next);
    } else {
      body := Then(SessionlessMark(memberType, sessionless, ask) + [Literal(">\n")],
        ArgsFrom(rest, next, memberType == SIGNAL, id, 0, ask));
      status := WriteSignature(w, rest, next, memberType, sessionless, id, ask);
    }
    if status != OK {
      return;
    }
    Assoc(before, out, body.value);
    out := out + body.value;
    var described := WriteDescription(w, 1, id, ask);
    Assoc(before, out, ask.Described(1, id));
    out := out + ask.Described(1, id);
    Assoc(before, out, [Whole(MemberClose(memberType, described))]);
    w.Write(Whole(MemberClose(memberType, described)));
  }

  /** The loop over an interface's members. */
  method WriteMembers(w: Writer, desc: seq<string>, id: nat, ask: Ask) returns (status: Status)
    requires w.Valid() && IfaceOk(desc)
    modifies w.Frame()
    ensures w.Valid() && status == if Members(desc, 1, id, ask).Some? then OK else ErrUnexpected
    ensures status == OK ==> w.out == old(w.out) + Members(desc, 1, id, ask).value
  {
    hide Writer.Valid, Member;
    ghost var before, done := w.out, [];
    ThenThen([], [], Members(desc, 1, id, ask));
    assert w.out == before + done;
    for i := 1 to |desc|
      invariant w.Valid() && w.out == before + done
      invariant Members(desc, 1, id, ask) == Then(done, Members(desc, i, id, ask))
    {
      ghost var member := Member(desc[i], id + i % 256 * 0x100, ask);
      status := WriteMember(w, desc[i], id + i % 256 * 0x100, ask);
      if status != OK {
        return;
      }
      ThenThen(done, member.value, Members(desc, i + 1, id, ask));
      done := done + member.value;
    }
    status := OK;
    assert done + [] == done;
  }

  /** One turn of ExpandInterfaces. */
  method WriteInterface(w: Writer, desc: seq<string>, id: nat, ask: Ask) returns (status: Status)
    requires w.Valid() && IfaceOk(desc)
    modifies w.Frame()
    ensures w.Valid() && status == if Interface(desc, id, ask).Some? then OK else ErrUnexpected
    ensures status == OK ==> w.out == old(w.out) + Interface(desc, id, ask).value
  {
    hide Writer.Valid, Members, Ask.Described, Tag, SecureNote, CString, Bare;
    ghost var before := w.out;
    var name := desc[0];
    ghost var out := Tag("<interface", Whole(Bare(name)), false);
    WriteTag(w, "<interface", Whole(Bare(name)), false);
    WriteNote(w, name);
    Assoc(before, out, SecureNote(name));
    out := out + SecureNote(name);
    var _ := WriteDescription(w, 0, id, ask);
    Assoc(before, out, ask.Described(0, id));
    out := out + ask.Described(0, id);
    status := WriteMembers(w, desc, id, ask);
    if status == OK {
      ghost var members := Members(desc, 1, id, ask).value;
      Assoc(before, out, members);
      Assoc(before, out + members, [Literal("</interface>\n")]);
      w.Write(Literal("</interface>\n"));
    }
  }

  /** The annotation of an interface. */
  method WriteNote(w: Writer, name: string)
    requires w.Valid()
    modifies w.Frame()
    ensures w.Valid() && w.out == old(w.out) + SecureNote(name)
  {
    hide Writer.Valid, IsStandard, Bare;
    ghost var before := w.out;
    if Bare(name) != name && !IsStandard(name) {
      w.Write(Literal(ANNOTATE));
      if At(name, 0) == '$' {
        w.Write(Literal(SECURE_TRUE));
      } else {
        w.Write(Literal("off\"/>\n"));
      }
    }
    assert w.out == before + SecureNote(name);
  }

  /** ExpandInterfaces. */
  method ExpandInterfaces(w: Writer, interfaces: seq<seq<string>>, id: nat, ask: Ask) returns (status: Status)
    requires w.Valid() && forall i :: 0 <= i < |interfaces| ==> IfaceOk(interfaces[i])
    modifies w.Frame()
    ensures w.Valid() && status == if Interfaces(interfaces, 0, id, ask).Some? then OK else ErrUnexpected
    ensures status == OK ==> w.out == old(w.out) + Interfaces(interfaces, 0, id, ask).value
  {
    hide Writer.Valid, Interface, IfaceOk;
    ghost var before, done := w.out, [];
    ThenThen([], [], Interfaces(interfaces, 0, id, ask));
    assert w.out == before + done;
    for i := 0 to |interfaces|
      invariant w.Valid() && w.out == before + done
      invariant Interfaces(interfaces, 0, id, ask) == Then(done, Interfaces(interfaces, i, id, ask))
    {
      ghost var one := Interface(interfaces[i], id + (i + 1) % 256 * 0x1_0000, ask);
      status := WriteInterface(w, interfaces[i], id + (i + 1) % 256 * 0x1_0000, ask);
      if status != OK {
        return;
      }
      ThenThen(done, one.value, Interfaces(interfaces, i + 1, id, ask));
      done := done + one.value;
    }
    status := OK;
    assert done + [] == done;
  }

  // ---- Objects ----

  /** ChildPath. */
  method FindChild(p: string, c: string) returns (name: Option<Piece>)
    ensures name == ChildPath(p, c)
  {
    var parent := if p == "/" then "" else p;
    var i := 0;
    while i < |parent| && At(c, i) == parent[i] && i < |c|
      invariant i <= |parent| && i <= |c| && parent[..i] == c[..i]
    {
      i := i + 1;
    }
    SamePrefix(parent, c, i);
    if i == |parent| && At(c, i) == '/' {
      var rest := c[i + 1..];
      var len := 0;
      while len < |rest| && rest[len] != '/'
        invariant len <= |rest| && forall j :: 0 <= j < len ==> !IsSlash(rest[j])
      {
        len := len + 1;
      }
      ReachIs(rest, IsSlash, len);
      if len > 0 {
        return Some(Part(rest, len));
      }
    }
    return None;
  }

  lemma SamePrefix(p: string, c: string, i: nat)
    requires i <= |p| && i <= |c| && p[..i] == c[..i] && (i < |p| && i < |c| ==> p[i] != c[i])
    ensures p <= c <==> i == |p|
  {
    assert p <= c ==> |p| <= |c| && forall k :: 0 <= k < |p| ==> p[k] == c[k];
  }

  /** FirstInstance. */
  method FindInstance(t: Tables, path: string, name: Piece) returns (k: nat)
    ensures k == FirstInstance(t, path, name.Text(), 0)
  {
    hide ChildPath;
    k := 0;
    while k < |t.nodes|
      invariant k <= |t.nodes| && FirstInstance(t, path, name.Text(), 0) == FirstInstance(t, path, name.Text(), k)
    {
      if Shown(t.nodes[k]) {
        var c := FindChild(path, t.nodes[k].path);
        if c.Some? && c.value.Text() == name.Text() {
          return;
        }
      }
      k := k + 1;
    }
  }

  /** SecurityApplies, for an object as a whole. */
  method IsSecured(t: Tables, n: Node) returns (b: bool)
    ensures b == Secured(t, n)
  {
    hide ChildPath;
    if n.secure {
      return true;
    }
    for k := 0 to |t.nodes|
      invariant forall j :: 0 <= j < k && !t.nodes[j].proxy && t.nodes[j].secure ==>
        ChildPath(t.nodes[j].path, n.path).None?
    {
      if !t.nodes[k].proxy && t.nodes[k].secure {
        var c := FindChild(t.nodes[k].path, n.path);
        if c.Some? {
          return true;
        }
      }
    }
    return false;
  }

  /** The loop over the children. */
  method WriteChildren(w: Writer, t: Tables, path: string, language: Option<string>) returns (ghost tags: seq<Piece>)
    requires w.Valid()
    modifies w.Frame()
    ensures
      && w.Valid() && ChildrenOk(t, path, 0)
      && tags == ChildTags(t, path, language, Children(t, path, 0)) && w.out == old(w.out) + tags
  {
    hide Writer.Valid, ChildTags, Children, ChildPart, ChildName;
    ghost var before := w.out;
    tags := [];
    assert w.out == before + tags;
    ChildrenOf(t, path, 0);
    NothingBefore(ChildTags(t, path, language, Children(t, path, 0)));
    for k := 0 to |t.nodes|
      invariant w.Valid() && w.out == before + tags && ChildrenOk(t, path, 0) && ChildrenOk(t, path, k)
      invariant ChildTags(t, path, language, Children(t, path, 0)) == tags
        + ChildTags(t, path, language, Children(t, path, k))
    {
      ghost var part := ChildPart(t, path, language, k);
      ChildrenOf(t, path, k + 1);
      ChildStep(t, path, language, k);
      WriteIfFirst(w, t, path, language, k);
      Assoc(before, tags, part);
      Assoc(tags, part, ChildTags(t, path, language, Children(t, path, k + 1)));
      tags := tags + part;
    }
    NoChildren(t, path, language);
    assert tags + [] == tags;
  }

  lemma NothingBefore(a: seq<Piece>)
    ensures [] + a == a
  {
  }

  /** What the loop writes at node `k`. */
  ghost function ChildPart(t: Tables, path: string, language: Option<string>, k: nat): seq<Piece>
    requires k < |t.nodes|
  {
    var name := ChildName(t, path, k);
    if name.Some? && FirstInstance(t, path, name.value, 0) == k then ChildTag(t, path, language, k) else []
  }

  /** One turn of the loop: a node that is the first with its child name. */
  method WriteIfFirst(w: Writer, t: Tables, path: string, language: Option<string>, k: nat)
    requires w.Valid() && k < |t.nodes|
    modifies w.Frame()
    ensures w.Valid() && w.out == old(w.out) + ChildPart(t, path, language, k)
  {
    hide Writer.Valid, ChildPath, ChildTag;
    assert w.out + [] == w.out;
    if Shown(t.nodes[k]) {
      var child := FindChild(path, t.nodes[k].path);
      if child.Some? {
        var first := FindInstance(t, path, child.value);
        if first == k {
          WriteChild(w, t, path, language, k, child.value);
        }
      }
    }
  }

  ghost predicate ChildrenOk(t: Tables, path: string, from: nat)
    requires from <= |t.nodes|
  {
    var c := Children(t, path, from);
    forall i :: 0 <= i < |c| ==> c[i] < |t.nodes| && ChildName(t, path, c[i]).Some?
  }

  lemma ChildrenOf(t: Tables, path: string, from: nat)
    requires from <= |t.nodes|
    ensures ChildrenOk(t, path, from)
  {
    hide ChildName;
    ChildrenAre(t, path, from);
    var c := Children(t, path, from);
    forall i | 0 <= i < |c| ensures ChildName(t, path, c[i]).Some? {
      assert c[i] in c;
    }
  }

  lemma ChildStep(t: Tables, path: string, language: Option<string>, k: nat)
    requires k < |t.nodes| && ChildrenOk(t, path, k) && ChildrenOk(t, path, k + 1)
    ensures ChildTags(t, path, language, Children(t, path, k))
         == ChildPart(t, path, language, k) + ChildTags(t, path, language, Children(t, path, k + 1))
  {
    hide ChildName, ChildTag;
    var c := Children(t, path, k + 1);
    assert ([k] + c)[1..] == c && [] + c == c;
    NothingBefore(ChildTags(t, path, language, c));
  }

  lemma NoChildren(t: Tables, path: string, language: Option<string>)
    ensures ChildrenOk(t, path, |t.nodes|) && ChildTags(t, path, language, Children(t, path, |t.nodes|)) == []
  {
  }

  /** One child's turn. */
  method WriteChild(w: Writer, t: Tables, path: string, language: Option<string>, k: nat, child: Piece)
    requires
      && w.Valid() && k < |t.nodes| && ChildName(t, path, k).Some?
      && ChildPath(path, t.nodes[k].path) == Some(child)
    modifies w.Frame()
    ensures w.Valid() && w.out == old(w.out) + ChildTag(t, path, language, k)
  {
    hide Writer.Valid, ChildPath, Tag;
    ghost var before := w.out;
    var n := t.nodes[k];
    var ask := AskFor(t, language, n.list);
    var id := n.index * 0x100_0000 % 0x1_0000_0000;
    if ask.descriptions.Get(id).Some? {
      WriteTag(w, "<node", child, false);
      var _ := WriteDescription(w, 0, id, ask);
      w.Write(Literal("</node>\n"));
    } else {
      WriteTag(w, "<node", child, true);
    }
    assert w.out == before + ChildTag(t, path, language, k);
  }

  /** GenXML. */
  method GenXML(w: Writer, t: Tables, target: Target, language: Option<string>) returns (status: Status)
    requires w.Valid() && t.Ok() && (target.Listed? ==> target.k < |t.nodes|)
    modifies w.Frame()
    ensures w.Valid() && status == if XmlOf(t, target, language).Some? then OK else ErrUnexpected
    ensures status == OK ==> w.out == old(w.out) + XmlOf(t, target, language).value
  {
    hide Writer.Valid, ChildPath, Tag, Secured, Ask.Described, ChildTags, Interfaces;
    ghost var before := w.out;
    var n := match target case Listed(k) => t.nodes[k] case Parent(path) =>
      Node(path, [], false, false, false, false, 0, 0);
    if n.hidden || n.disabled || n.proxy {
      assert before + [] == w.out;
      return OK;
    }
    var id := n.index * 0x100_0000 % 0x1_0000_0000;
    var ask := if target.Listed? then AskFor(t, language, n.list) else Ask(language, NoLookup);
    ghost var out := Tag("<node", Whole(n.path), false);
    WriteTag(w, "<node", Whole(n.path), false);
    var secured := IsSecured(t, n);
    ghost var note := if secured then [Literal(ANNOTATE), Literal(SECURE_TRUE)] else [];
    WriteSecured(w, secured);
    Assoc(before, out, note);
    out := out + note;
    var _ := WriteDescription(w, 0, id, ask);
    Assoc(before, out, ask.Described(0, id));
    out := out + ask.Described(0, id);
    status := ExpandInterfaces(w, n.interfaces, id, ask);
    if status == OK {
      ghost var interfaces := Interfaces(n.interfaces, 0, id, ask).value;
      Assoc(before, out, interfaces);
      out := out + interfaces;
      ghost var tags := WriteChildren(w, t, n.path, language);
      Assoc(before, out, tags);
      Assoc(before, out + tags, [Literal("</node>\n")]);
      w.Write(Literal("</node>\n"));
    }
  }

  method WriteSecured(w: Writer, secured: bool)
    requires w.Valid()
    modifies w.Frame()
    ensures w.Valid() && w.out == old(w.out) + if secured then [Literal(ANNOTATE), Literal(SECURE_TRUE)] else []
  {
    hide Writer.Valid;
    ghost var before := w.out;
    if secured {
      w.Write(Literal(ANNOTATE));
      w.Write(Literal(SECURE_TRUE));
      assert w.out == before + [Literal(ANNOTATE), Literal(SECURE_TRUE)];
    } else {
      assert before + [] == before;
    }
  }

  /** The search of AJ_HandleIntrospectRequest. */
  method FindTarget(t: Tables, path: string) returns (target: Option<Target>)
    ensures target == Select(t, path, 0)
  {
    hide ChildPath;
    var k := 0;
    while k < |t.nodes|
      invariant k <= |t.nodes| && Select(t, path, 0) == Select(t, path, k)
    {
      if Shown(t.nodes[k]) {
        if t.nodes[k].path == path {
          return Some(Listed(k));
        }
        var c := FindChild(path, t.nodes[k].path);
        if c.Some? {
          return Some(Parent(path));
        }
      }
      k := k + 1;
    }
    return None;
  }
}
