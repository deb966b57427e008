/**
 What an introspection reply reads like: for interfaces described by the names, types and directions
 of their members, the XML of the D-Bus Specification, section "Introspection Data Format".
 */
module IntrospectText {
  import opened Common
  import opened Signatures
  import opened Identify
  import opened Introspect
  import opened XmlWriter
  import XmlGenerator
  import Wire

  /** The text of what the writer is handed. */
  function TextOf(pieces: seq<Piece>): string {
    if pieces == [] then "" else pieces[0].Text() + TextOf(pieces[1..])
  }

  lemma {:induction false} TextOfBoth(a: seq<Piece>, b: seq<Piece>)
    ensures TextOf(a + b) == TextOf(a) + TextOf(b)
  {
    if a == [] {
      assert a + b == b;
    } else {
      assert (a + b)[1..] == a[1..] + b;
      TextOfBoth(a[1..], b);
    }
  }

  lemma {:induction false} XmlIsText(pieces: seq<Piece>)
    ensures Xml(pieces) == CharOctets(TextOf(pieces))
  {
    if pieces != [] {
      XmlIsText(pieces[1..]);
    }
  }

  // ---- Members as they are described ----

  /** Nothing in it ends an attribute. */
  predicate Unmarked(s: string) {
    forall i :: 0 <= i < |s| ==> s[i] !in {' ', '<', '=', '>'}
  }

  /** A method or signal, or a property: '<' stands for write, '=' for readwrite, '>' for read. */
  datatype Described =
    | Callable(d: MemberDesc)
    | Property(name: string, access: char, sig: string)

  ghost predicate EntryFor(m: Described, encoding: string) {
    match m
    case Callable(d) =>
      && Describes(d, encoding, d.isCall) && Unmarked(d.name)
      && forall i :: 0 <= i < |d.args| ==> Unmarked(d.args[i].name) && Unmarked(d.args[i].sig) && d.args[i].sig != ""
    case Property(name, access, sig) =>
      && encoding == "@" + (name + ([access] + sig)) && access in {'<', '=', '>'}
      && Unmarked(name) && Unmarked(sig) && name != "" && sig != ""
  }

  function ArgText(a: ArgDesc, signal: bool): string {
    "    <arg" + (if a.name == "" then "" else " name=\"" + a.name + "\"")
    + (" type=\"" + a.sig + ((if signal then "\"" else if a.direction == '<' then "\" direction=\"in\""
         else "\" direction=\"out\"") + "/>\n"))
  }

  function ArgsText(args: seq<ArgDesc>, signal: bool): string {
    if args == [] then "" else ArgText(args[0], signal) + ArgsText(args[1..], signal)
  }

  function MemberText(m: Described): string {
    match m
    case Callable(d) =>
      OpenTag(d.isCall) + (" name=\"" + d.name + "\"") + (">\n" + ArgsText(d.args, !d.isCall)) + CloseTag(d.isCall)
    case Property(name, access, sig) =>
      "  <property" + (" name=\"" + name + "\"") + (" type=\"" + sig + AccessText(access)) + "/>\n"
  }

  function AccessText(access: char): string {
    if access == '<' then "\" access=\"write\"" else if access == '=' then "\" access=\"readwrite\""
    else "\" access=\"read\""
  }

  /** Neither language nor descriptions. */
  const PLAIN := Ask(None, NoLookup)

  /** An attribute: what stands in front of its end. */
  lemma Attribute(s: string, tail: string, pre: string, post: string)
    requires Unmarked(s) && s != "" && (tail != "" ==> Ends(tail[0]))
    ensures var e := ExpandAttribute(s + tail, pre, post);
      TextOf(e.out) == pre + s + post && e.next == At(tail, 0) && e.rest == Behind(tail)
  {
    var all := s + tail;
    assert (forall i :: 0 <= i < |s| ==> all[i] == s[i]) && all[..|s|] == s && all[|s|..] == tail;
    XmlGenerator.ReachIs(all, Ends, |s|);
    assert tail != "" ==> all[|s|] == tail[0] && all[|s| + 1..] == tail[1..];
    ThreeTexts(Whole(pre), Part(all, |s|), Whole(post));
  }

  lemma OneText(a: Piece)
    ensures TextOf([a]) == a.Text() && TextOf([]) == ""
  {
    assert [a][1..] == [];
  }

  lemma ThreeTexts(a: Piece, b: Piece, c: Piece)
    ensures TextOf([a, b, c]) == a.Text() + b.Text() + c.Text()
  {
    OneText(c);
    assert [a, b, c][1..] == [b, c] && [b, c][1..] == [c];
  }

  /** An argument in the notation, and whatever follows it. */
  function Noted(a: ArgDesc, tail: string): string {
    a.name + ([a.direction] + (a.sig + tail))
  }

  function Behind(tail: string): string {
    if tail == "" then "" else tail[1..]
  }

  lemma ArgMeans(a: ArgDesc, tail: string, signal: bool, id: nat)
    requires ArgOk(a) && Unmarked(a.name) && Unmarked(a.sig) && a.sig != "" && (tail != "" ==> tail[0] == ' ')
    ensures var e := Arg(Noted(a, tail), signal, id, PLAIN);
      && e.Some? && e.value.next == At(tail, 0) && e.value.rest == Behind(tail)
      && TextOf(e.value.out) == ArgText(a, signal)
  {
    hide ExpandAttribute, Ends, TextOf, Arg, EndOf, Noted;
    var s := Noted(a, tail);
    var end := EndOf(a, signal);
    var named := Name(a, tail);
    IsEnd(' ');
    ArgShape(s, signal, id, named);
    EndIs(a, signal);
    Attribute(a.sig, tail, " type=\"", end);
    var t := ExpandAttribute(a.sig + tail, " type=\"", end);
    OneText(Literal("    <arg"));
    TextOfBoth([Literal("    <arg")] + named.out, t.out);
    TextOfBoth([Literal("    <arg")], named.out);
  }

  function EndOf(a: ArgDesc, signal: bool): string {
    ArgEnd(signal, if a.direction == '<' then 0 else 2, false)
  }

  lemma ArgShape(s: string, signal: bool, id: nat, named: Expanded)
    requires named == if IsDirection(At(s, 0)) then Expanded(s[0], s[1..], []) else ExpandAttribute(s, " name=\"", "\"")
    requires named.next in {'<', '>'}
    ensures var t := ExpandAttribute(named.rest, " type=\"", ArgEnd(signal, if named.next == '<' then 0 else 2, false));
      Arg(s, signal, id, PLAIN) == Some(Expanded(t.next, t.rest, [Literal("    <arg")] + named.out + t.out))
  {
    hide ExpandAttribute, ArgEnd;
    var t := ExpandAttribute(named.rest, " type=\"", ArgEnd(signal, if named.next == '<' then 0 else 2, false));
    NothingBehind([Literal("    <arg")] + named.out + t.out);
  }

  /** How an argument ends. */
  lemma EndIs(a: ArgDesc, signal: bool)
    ensures EndOf(a, signal)
      == (if signal then "\"" else if a.direction == '<' then "\" direction=\"in\"" else "\" direction=\"out\"")
         + "/>\n"
  {
  }

  lemma NothingBehind(s: seq<Piece>)
    ensures s + [] == s
  {
  }

  lemma IsEnd(c: char)
    ensures c in {' ', '<', '=', '>'} <==> Ends(c)
  {
  }

  /** The name of an argument, up to its direction. */
  lemma Name(a: ArgDesc, tail: string) returns (named: Expanded)
    requires ArgOk(a) && Unmarked(a.name)
    ensures var s := Noted(a, tail);
      && named == (if IsDirection(At(s, 0)) then Expanded(s[0], s[1..], [])
                   else ExpandAttribute(s, " name=\"", "\""))
      && named.next == a.direction && named.rest == a.sig + tail
      && TextOf(named.out) == (if a.name == "" then "" else " name=\"" + a.name + "\"")
  {
    var s, typed := Noted(a, tail), [a.direction] + (a.sig + tail);
    assert typed[1..] == a.sig + tail;
    if a.name == "" {
      assert s == typed;
      named := Expanded(a.direction, a.sig + tail, []);
    } else {
      hide ExpandAttribute;
      Attribute(a.name, typed, " name=\"", "\"");
      named := ExpandAttribute(s, " name=\"", "\"");
      assert s[0] == a.name[0];
    }
  }

  /** The arguments of a member, from their notation. */
  lemma {:induction false} ArgsMean(args: seq<ArgDesc>, signal: bool, id: nat, k: nat)
    requires forall i :: 0 <= i < |args| ==>
      ArgOk(args[i]) && Unmarked(args[i].name) && Unmarked(args[i].sig) && args[i].sig != ""
    ensures var n := Notation(args); var r := ArgsFrom(Behind(n), At(n, 0), signal, id, k, PLAIN);
      r.Some? && TextOf(r.value) == ArgsText(args, signal)
    decreases |args|
  {
    hide Arg, ArgText, ArgOk;
    if args != [] {
      var tail := Notation(args[1..]);
      NotationStarts(args[1..]);
      NotationIs(args);
      var index := (k + 1) % 256;
      ArgMeans(args[0], tail, signal, id + index);
      ArgsMean(args[1..], signal, id, index);
      var e := Arg(Noted(args[0], tail), signal, id + index, PLAIN).value;
      TextOfBoth(e.out, ArgsFrom(e.rest, e.next, signal, id, index, PLAIN).value);
    }
  }

  lemma NotationIs(args: seq<ArgDesc>)
    requires args != []
    ensures
      && Notation(args) != "" && Notation(args)[0] == ' '
      && Behind(Notation(args)) == Noted(args[0], Notation(args[1..]))
  {
    var a, tail := args[0], Notation(args[1..]);
    Wire.Assoc(" " + a.name + [a.direction], a.sig, tail);
    Wire.Assoc(" " + a.name, [a.direction], a.sig + tail);
    Wire.Assoc(" ", a.name, [a.direction] + (a.sig + tail));
    FirstOff(Noted(a, tail));
  }

  lemma FirstOff(s: string)
    ensures (" " + s)[0] == ' ' && (" " + s)[1..] == s
  {
  }

  // ---- Members, interfaces and objects ----

  lemma FourTexts(open: string, name: seq<Piece>, body: seq<Piece>, close: string)
    ensures TextOf([Whole(open)] + name + body + [] + [Whole(close)]) == open + TextOf(name) + TextOf(body) + close
  {
    hide TextOf;
    OneText(Whole(open));
    OneText(Whole(close));
    NothingBehind([Whole(open)] + name + body);
    TextOfBoth([Whole(open)] + name + body, [Whole(close)]);
    TextOfBoth([Whole(open)] + name, body);
    TextOfBoth([Whole(open)], name);
  }

  function OpenTag(isCall: bool): string { if isCall then "  <method" else "  <signal" }
  function CloseTag(isCall: bool): string { if isCall then "  </method>\n" else "  </signal>\n" }

  /** What is written of a method's or signal's name, and of its arguments. */
  function NameOut(d: MemberDesc): seq<Piece> {
    ExpandAttribute(d.name + Notation(d.args), " name=\"", "\"").out
  }

  function ArgsOut(d: MemberDesc, id: nat): Option<seq<Piece>> {
    var n := Notation(d.args);
    ArgsFrom(Behind(n), At(n, 0), !d.isCall, id, 0, PLAIN)
  }

  lemma CallableShape(d: MemberDesc, encoding: string, id: nat)
    requires EntryFor(Callable(d), encoding) && ArgsOut(d, id).Some?
    ensures encoding != "" && Member(encoding, id, PLAIN) == Some([Whole(OpenTag(d.isCall))] + NameOut(d)
                                + ([Literal(">\n")] + ArgsOut(d, id).value) + [] + [Whole(CloseTag(d.isCall))])
  {
    hide TextOf, ArgsFrom, Ends, ArgOk, ExpandAttribute;
    NameBehind(d, encoding, d.isCall);
    NotationStarts(d.args);
    IsEnd(' ');
    Attribute(d.name, Notation(d.args), " name=\"", "\"");
    assert [] + [Literal(">\n")] == [Literal(">\n")];
  }

  lemma CallableParts(d: MemberDesc, encoding: string, id: nat)
    requires EntryFor(Callable(d), encoding)
    ensures TextOf(NameOut(d)) == " name=\"" + d.name + "\""
    ensures ArgsOut(d, id).Some?
    ensures TextOf([Literal(">\n")] + ArgsOut(d, id).value) == ">\n" + ArgsText(d.args, !d.isCall)
  {
    hide ExpandAttribute, TextOf, ArgsFrom, ArgsText, Ends, ArgOk;
    NotationStarts(d.args);
    IsEnd(' ');
    Attribute(d.name, Notation(d.args), " name=\"", "\"");
    ArgsMean(d.args, !d.isCall, id, 0);
    OneText(Literal(">\n"));
    TextOfBoth([Literal(">\n")], ArgsOut(d, id).value);
  }

  lemma CallableMeans(d: MemberDesc, encoding: string, id: nat)
    requires EntryFor(Callable(d), encoding)
    ensures encoding != "" && Member(encoding, id, PLAIN).Some?
    ensures TextOf(Member(encoding, id, PLAIN).value) == MemberText(Callable(d))
  {
    hide TextOf, Member, EntryFor, NameOut, ArgsOut, ArgsText;
    CallableParts(d, encoding, id);
    CallableShape(d, encoding, id);
    FourTexts(OpenTag(d.isCall), NameOut(d), [Literal(">\n")] + ArgsOut(d, id).value, CloseTag(d.isCall));
  }

  lemma PropertyMeans(name: string, access: char, sig: string, encoding: string, id: nat)
    requires EntryFor(Property(name, access, sig), encoding)
    ensures encoding != "" && Member(encoding, id, PLAIN).Some?
    ensures TextOf(Member(encoding, id, PLAIN).value) == MemberText(Property(name, access, sig))
  {
    hide ExpandAttribute, TextOf, Ends;
    var tail := [access] + sig;
    assert encoding[1..] == name + tail && tail[1..] == sig;
    IsEnd(access);
    Attribute(name, tail, " name=\"", "\"");
    assert sig + "" == sig;
    Attribute(sig, "", " type=\"", AccessText(access));
    FourTexts("  <property", ExpandAttribute(name + tail, " name=\"", "\"").out,
      ExpandAttribute(sig, " type=\"", AccessText(access)).out, "/>\n");
  }

  /** The text of a member is what its description says. */
  lemma MemberMeans(m: Described, encoding: string, id: nat)
    requires EntryFor(m, encoding)
    ensures encoding != "" && Member(encoding, id, PLAIN).Some?
    ensures TextOf(Member(encoding, id, PLAIN).value) == MemberText(m)
  {
    match m
    case Callable(d) => CallableMeans(d, encoding, id);
    case Property(name, access, sig) => PropertyMeans(name, access, sig, encoding, id);
  }

  /** An interface: how it is marked, '$' for secured, '#' for never secured, its name and its members. */
  datatype IfaceDesc = IfaceDesc(mark: string, name: string, members: seq<Described>)

  ghost predicate IfaceFor(d: IfaceDesc, desc: seq<string>) {
    && IfaceOk(desc) && |desc| == |d.members| + 1 && desc[0] == d.mark + d.name && d.mark in {"", "$", "#"}
    && d.name != "" && d.name[0] !in {'$', '#'}
    && forall i :: 0 <= i < |d.members| ==> EntryFor(d.members[i], desc[i + 1])
  }

  function MembersText(ms: seq<Described>): string {
    if ms == [] then "" else MemberText(ms[0]) + MembersText(ms[1..])
  }

  function TagText(tag: string, name: string, atom: bool): string {
    tag + " name=\"" + name + "\"" + (if atom then "/>\n" else ">\n")
  }

  /** The annotation that says whether something is secured. */
  function NoteText(value: string): string {
    "  <annotation name=\"org.alljoyn.Bus.Secure\" value=\"" + (value + "\"/>\n")
  }

  /** The interfaces, with their marks, that need no annotation. */
  predicate Standard(marked: string) {
    marked in {"#org.freedesktop.DBus.Introspectable", "#org.freedesktop.DBus.Properties", "#org.freedesktop.DBus.Peer",
               "#org.allseen.Introspectable"}
  }

  /** What an interface's mark says, standard interfaces apart. */
  function MarkText(d: IfaceDesc): string {
    if d.mark == "$" then NoteText("true")
    else if d.mark == "#" && !Standard(d.mark + d.name) then NoteText("off") else ""
  }

  function IfaceText(d: IfaceDesc): string {
    TagText("<interface", d.name, false)
    + MarkText(d) + MembersText(d.members) + "</interface>\n"
  }

  function IfacesText(ds: seq<IfaceDesc>): string {
    if ds == [] then "" else IfaceText(ds[0]) + IfacesText(ds[1..])
  }

  lemma {:induction false} MembersMean(ms: seq<Described>, desc: seq<string>, from: nat, id: nat)
    requires IfaceOk(desc) && 1 <= from <= |desc| && |ms| == |desc| - from
    requires forall i :: 0 <= i < |ms| ==> EntryFor(ms[i], desc[from + i])
    ensures var r := Members(desc, from, id, PLAIN); r.Some? && TextOf(r.value) == MembersText(ms)
    decreases |ms|
  {
    hide Member, MemberText, EntryFor, CString;
    if ms != [] {
      MemberMeans(ms[0], desc[from], id + from % 256 * 0x100);
      MembersMean(ms[1..], desc, from + 1, id);
      TextOfBoth(Member(desc[from], id + from % 256 * 0x100, PLAIN).value, Members(desc, from + 1, id, PLAIN).value);
    }
  }

  lemma TagMeans(tag: string, val: Piece, atom: bool)
    ensures TextOf(Tag(tag, val, atom)) == TagText(tag, val.Text(), atom)
  {
    var end := if atom then Literal("/>\n") else Literal(">\n");
    ThreeTexts(Whole(tag), Whole(" name=\""), val);
    assert Tag(tag, val, atom) == [Whole(tag), Whole(" name=\""), val] + [Literal("\""), end];
    TextOfBoth([Whole(tag), Whole(" name=\""), val], [Literal("\""), end]);
    assert [Literal("\""), end] == [Literal("\"")] + [end];
    TextOfBoth([Literal("\"")], [end]);
    OneText(Literal("\""));
    OneText(end);
  }

  lemma NoteMeans(d: IfaceDesc)
    requires d.mark in {"", "$", "#"} && d.name != "" && d.name[0] !in {'$', '#'}
    ensures Bare(d.mark + d.name) == d.name
    ensures TextOf(SecureNote(d.mark + d.name))
      == MarkText(d)
  {
    var name := d.mark + d.name;
    hide TextOf, IsStandard, Standard;
    assert name[1..] == if d.mark == "" then d.name[1..] else d.name;
    assert d.mark == "" ==> name == d.name;
    assert d.mark != "" ==> name[0] == d.mark[0];
    StandardIs(name);
    NoteTexts();
  }

  lemma StandardIs(name: string)
    ensures IsStandard(name) <==> Standard(name)
    ensures Standard(name) ==> name != "" && name[0] == '#'
  {
  }

  lemma NoteTexts()
    ensures TextOf([Literal(ANNOTATE), Literal(SECURE_TRUE)]) == NoteText("true")
    ensures TextOf([Literal(ANNOTATE), Literal("off\"/>\n")]) == NoteText("off") && TextOf([]) == ""
  {
    hide TextOf;
    OneText(Literal(ANNOTATE));
    assert [Literal(ANNOTATE), Literal(SECURE_TRUE)] == [Literal(ANNOTATE)] + [Literal(SECURE_TRUE)];
    assert [Literal(ANNOTATE), Literal("off\"/>\n")] == [Literal(ANNOTATE)] + [Literal("off\"/>\n")];
    TextOfBoth([Literal(ANNOTATE)], [Literal(SECURE_TRUE)]);
    TextOfBoth([Literal(ANNOTATE)], [Literal("off\"/>\n")]);
    OneText(Literal(SECURE_TRUE));
    OneText(Literal("off\"/>\n"));
    assert "true" + "\"/>\n" == SECURE_TRUE && "off" + "\"/>\n" == "off\"/>\n";
  }

  lemma IfaceShape(d: IfaceDesc, desc: seq<string>, id: nat, members: seq<Piece>)
    requires IfaceFor(d, desc) && Members(desc, 1, id, PLAIN) == Some(members)
    ensures Interface(desc, id, PLAIN)
      == Some(Tag("<interface", Whole(d.name), false) + SecureNote(desc[0]) + [] + members + []
              + [Literal("</interface>\n")])
  {
    hide Members, SecureNote, Tag, EntryFor, CString, Bare, TextOf, Standard;
    NoteMeans(d);
    NothingBehind(Tag("<interface", Whole(d.name), false) + SecureNote(desc[0]) + [] + members);
  }

  /** The text of an interface. */
  lemma IfaceMeans(d: IfaceDesc, desc: seq<string>, id: nat)
    requires IfaceFor(d, desc)
    ensures var r := Interface(desc, id, PLAIN); r.Some? && TextOf(r.value) == IfaceText(d)
  {
    hide TextOf, Members, MembersText, SecureNote, Tag, EntryFor, CString, Standard, NoteText, Bare, Interface, TagText;
    MembersMean(d.members, desc, 1, id);
    var members := Members(desc, 1, id, PLAIN).value;
    IfaceShape(d, desc, id, members);
    NoteMeans(d);
    TagMeans("<interface", Whole(d.name), false);
    Joined(Tag("<interface", Whole(d.name), false), SecureNote(desc[0]), members, [], "</interface>\n");
    OneText(Whole(""));
  }

  lemma Joined(a: seq<Piece>, b: seq<Piece>, c: seq<Piece>, d: seq<Piece>, end: string)
    ensures TextOf(a + b + [] + c + d + [Literal(end)]) == TextOf(a) + TextOf(b) + TextOf(c) + TextOf(d) + end
  {
    hide TextOf;
    NothingBehind(a + b);
    OneText(Literal(end));
    TextOfBoth(a + b + c + d, [Literal(end)]);
    TextOfBoth(a + b + c, d);
    TextOfBoth(a + b, c);
    TextOfBoth(a, b);
  }

  lemma {:induction false} IfacesMean(ds: seq<IfaceDesc>, interfaces: seq<seq<string>>, from: nat, id: nat)
    requires from <= |interfaces| && |ds| == |interfaces| - from
    requires forall i :: 0 <= i < |interfaces| ==> IfaceOk(interfaces[i])
    requires forall i :: 0 <= i < |ds| ==> IfaceFor(ds[i], interfaces[from + i])
    ensures var r := Interfaces(interfaces, from, id, PLAIN); r.Some? && TextOf(r.value) == IfacesText(ds)
    decreases |ds|
  {
    hide Interface, IfaceText, IfaceFor, IfaceOk;
    if ds != [] {
      var at := id + (from + 1) % 256 * 0x1_0000;
      IfaceMeans(ds[0], interfaces[from], at);
      IfacesMean(ds[1..], interfaces, from + 1, id);
      TextOfBoth(Interface(interfaces[from], at, PLAIN).value, Interfaces(interfaces, from + 1, id, PLAIN).value);
    }
  }

  /** The names of the children, in order. */
  function NamesOf(t: Tables, path: string, children: seq<nat>): (names: seq<string>)
    requires forall i :: 0 <= i < |children| ==> children[i] < |t.nodes| && ChildName(t, path, children[i]).Some?
    ensures |names| == |children|
  {
    seq(|children|, i requires 0 <= i < |children| => ChildName(t, path, children[i]).value)
  }

  function ChildrenText(names: seq<string>): string {
    if names == [] then "" else TagText("<node", names[0], true) + ChildrenText(names[1..])
  }

  lemma {:induction false} ChildrenMean(t: Tables, path: string, children: seq<nat>)
    requires forall i :: 0 <= i < |children| ==> children[i] < |t.nodes| && ChildName(t, path, children[i]).Some?
    ensures TextOf(ChildTags(t, path, None, children)) == ChildrenText(NamesOf(t, path, children))
    decreases |children|
  {
    if children != [] {
      hide TextOf, Tag, ChildName, ChildTag, TagText;
      ChildMeans(t, path, children[0]);
      ChildrenMean(t, path, children[1..]);
      NamesMore(t, path, children);
      hide NamesOf;
      TextOfBoth(ChildTag(t, path, None, children[0]), ChildTags(t, path, None, children[1..]));
    } else {
      OneText(Whole(""));
    }
  }

  lemma NamesMore(t: Tables, path: string, children: seq<nat>)
    requires forall i :: 0 <= i < |children| ==> children[i] < |t.nodes| && ChildName(t, path, children[i]).Some?
    ensures children != [] ==>
      var names := NamesOf(t, path, children);
      names[0] == ChildName(t, path, children[0]).value && names[1..] == NamesOf(t, path, children[1..])
  {
    hide ChildName;
  }

  lemma ChildMeans(t: Tables, path: string, k: nat)
    requires k < |t.nodes| && ChildName(t, path, k).Some?
    ensures TextOf(ChildTag(t, path, None, k)) == TagText("<node", ChildName(t, path, k).value, true)
  {
    hide TextOf, Tag, TagText;
    var val := ChildPath(path, t.nodes[k].path).value;
    TagMeans("<node", val, true);
    NothingBehind(Tag("<node", val, true));
  }

  /** The text of an object: its interfaces and its children. */
  function ObjectText(path: string, secured: bool, ds: seq<IfaceDesc>, children: seq<string>): string {
    TagText("<node", path, false) + (if secured then NoteText("true") else "") + IfacesText(ds)
    + ChildrenText(children) + "</node>\n"
  }

  lemma ChildrenNamed(t: Tables, path: string)
    ensures var c := Children(t, path, 0);
      forall i :: 0 <= i < |c| ==> c[i] < |t.nodes| && ChildName(t, path, c[i]).Some?
  {
    hide ChildName, Children;
    ChildrenAre(t, path, 0);
    var c := Children(t, path, 0);
    forall i | 0 <= i < |c| ensures c[i] < |t.nodes| && ChildName(t, path, c[i]).Some? {
      var k := c[i];
      assert 0 <= k < |t.nodes| && k in c;
    }
  }

  ghost predicate Plainly(t: Tables, k: nat)
    requires k < |t.nodes|
  {
    !t.nodes[k].hidden && !t.nodes[k].disabled && !t.nodes[k].proxy
  }

  function SecuredNote(secured: bool): seq<Piece> {
    if secured then [Literal(ANNOTATE), Literal(SECURE_TRUE)] else []
  }

  lemma ObjectShape(t: Tables, k: nat, interfaces: seq<Piece>)
    requires t.Ok() && k < |t.nodes| && Plainly(t, k)
    requires var n := t.nodes[k];
      Interfaces(n.interfaces, 0, n.index * 0x100_0000 % 0x1_0000_0000, PLAIN) == Some(interfaces)
    ensures var n := t.nodes[k]; var children := Children(t, n.path, 0);
      && (forall i :: 0 <= i < |children| ==> children[i] < |t.nodes| && ChildName(t, n.path, children[i]).Some?)
      && XmlOf(t, Listed(k), None)
           == Some(Tag("<node", Whole(n.path), false) + SecuredNote(Secured(t, n)) + [] + interfaces
                   + ChildTags(t, n.path, None, children) + [Literal("</node>\n")])
  {
    hide Tag, Interfaces, ChildTags, ChildName, Secured, Children;
    ChildrenNamed(t, t.nodes[k].path);
    assert PLAIN.Described(0, t.nodes[k].index * 0x100_0000 % 0x1_0000_0000) == [];
  }

  /** What is described when nobody asks for a language is the object as the D-Bus Specification writes it. */
  lemma ObjectMeans(t: Tables, k: nat, ds: seq<IfaceDesc>)
    requires t.Ok() && k < |t.nodes| && Plainly(t, k)
    requires
      && |ds| == |t.nodes[k].interfaces|
      && forall i :: 0 <= i < |ds| ==> IfaceFor(ds[i], t.nodes[k].interfaces[i])
    ensures var n := t.nodes[k]; var r := XmlOf(t, Listed(k), None); var children := Children(t, n.path, 0);
      && r.Some?
      && (forall i :: 0 <= i < |children| ==> children[i] < |t.nodes| && ChildName(t, n.path, children[i]).Some?)
      && TextOf(r.value) == ObjectText(n.path, Secured(t, n), ds, NamesOf(t, n.path, children))
      && Xml(r.value) == CharOctets(TextOf(r.value))
  {
    hide TextOf, Tag, Interfaces, IfacesText, ChildTags, ChildrenText, ChildName, NoteText, IfaceFor, Secured, Children,
         XmlOf, NamesOf, TagText;
    var n := t.nodes[k];
    var id := n.index * 0x100_0000 % 0x1_0000_0000;
    ChildrenNamed(t, n.path);
    IfacesMean(ds, n.interfaces, 0, id);
    var interfaces := Interfaces(n.interfaces, 0, id, PLAIN).value;
    ObjectShape(t, k, interfaces);
    ChildrenMean(t, n.path, Children(t, n.path, 0));
    TagMeans("<node", Whole(n.path), false);
    NoteTexts();
    Joined(Tag("<node", Whole(n.path), false), SecuredNote(Secured(t, n)), interfaces,
      ChildTags(t, n.path, None, Children(t, n.path, 0)), "</node>\n");
    XmlIsText(XmlOf(t, Listed(k), None).value);
  }
}
