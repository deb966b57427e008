/** Packed message ids: finding the id of a call or signal, and making the call or signal an id stands for. */
module Identify {
  import opened Common
  import opened Signatures

  /** AJ_Object; an interface is its name, then its members. */
  datatype Obj = Obj(path: string, disabled: bool, interfaces: seq<seq<string>>)

  type Lists = seq<Option<seq<Obj>>>

  /** What identifies a call or a signal. */
  datatype Call = Call(isCall: bool, path: string, iface: string, member: string, signature: string)

  /** The tables are as C has them, and small enough for one octet to an index. */
  predicate TablesOk(lists: Lists) {
    |lists| <= 256 && forall o :: 0 <= o < |lists| && lists[o].Some? ==> ListOk(lists[o].value)
  }

  predicate ListOk(list: seq<Obj>) {
    |list| <= 256 && forall p :: 0 <= p < |list| ==> ObjOk(list[p])
  }

  predicate ObjOk(obj: Obj) {
    |obj.interfaces| <= 256 && forall i :: 0 <= i < |obj.interfaces| ==> IfaceOk(obj.interfaces[i])
  }

  predicate IfaceOk(desc: seq<string>) {
    0 < |desc| <= 256 && forall m :: 0 <= m < |desc| ==> CString(desc[m]) && desc[m] != ""
  }

  /** MEMBER_TYPE. */
  function MemberType(c: char): int {
    c as int / 16 - 2
  }

  const SIGNAL := 0
  const METHOD := 1

  function TypeFor(isCall: bool): int {
    if isCall then METHOD else SIGNAL
  }

  /** Where a member's name starts: behind its type, and behind the mark of a sessionless signal. */
  function NameStart(encoding: string): nat
    requires encoding != ""
  {
    if MemberType(encoding[0]) == SIGNAL && At(encoding, 1) == '&' then 2 else 1
  }

  function NameOf(encoding: string): string
    requires encoding != ""
  {
    Word(encoding[NameStart(encoding)..])
  }

  /** The interface name without its security specifier. */
  function Bare(name: string): string {
    if At(name, 0) == '$' || At(name, 0) == '#' then name[1..] else name
  }

  predicate MatchPath(path: string, msg: Call) {
    (At(path, 0) == '?' && msg.isCall) || (At(path, 0) == '!' && !msg.isCall) || path == msg.path
  }

  predicate Matches(encoding: string, msg: Call) {
    encoding != "" && MemberType(encoding[0]) == TypeFor(msg.isCall) && NameOf(encoding) == msg.member
  }

  /** MatchMember, for a member name as it comes off the wire. */
  method MatchMember(encoding: string, msg: Call) returns (b: bool)
    requires CString(encoding) && CString(msg.member) && NoSpace(msg.member)
    ensures b == Matches(encoding, msg)
  {
    if MemberType(At(encoding, 0)) != TypeFor(msg.isCall) {
      return false;
    }
    var i := 1;
    if TypeFor(msg.isCall) == SIGNAL && At(encoding, 1) == '&' {
      i := 2;
    }
    ghost var rest := encoding[i..];
    var j := 0;
    while j < |msg.member|
      invariant j <= |msg.member| && j <= |rest| && rest[..j] == msg.member[..j]
    {
      if At(encoding, i + j) != msg.member[j] {
        if |Word(rest)| > j {
          assert Word(rest)[j] == rest[j];
        }
        return false;
      }
      assert rest[..j + 1] == rest[..j] + [rest[j]] && msg.member[..j + 1] == msg.member[..j] + [msg.member[j]];
      j := j + 1;
    }
    assert rest[..j] == msg.member;
    b := At(encoding, i + j) == '\0' || At(encoding, i + j) == ' ';
    if b {
      WordIs(rest, j);
    }
  }

  /** The first interface of this name; the number of interfaces if there is none. */
  function FindIface(interfaces: seq<seq<string>>, iface: string, from: nat): (i: nat)
    requires from <= |interfaces| && forall k :: 0 <= k < |interfaces| ==> interfaces[k] != []
    ensures from <= i <= |interfaces| && (i < |interfaces| ==> Bare(interfaces[i][0]) == iface)
    ensures forall k :: from <= k < i ==> Bare(interfaces[k][0]) != iface
    decreases |interfaces| - from
  {
    if from == |interfaces| || Bare(interfaces[from][0]) == iface then from else FindIface(interfaces, iface, from + 1)
  }

  /** The first member, from `from` on, that the message matches; the number of entries if there is none. */
  function FindMember(desc: seq<string>, msg: Call, from: nat): (m: nat)
    requires from <= |desc|
    ensures from <= m <= |desc| && (m < |desc| ==> Matches(desc[m], msg))
    ensures forall k :: from <= k < m ==> !Matches(desc[k], msg)
    decreases |desc| - from
  {
    if from == |desc| || Matches(desc[from], msg) then from else FindMember(desc, msg, from + 1)
  }

  /** The interface and member of an object that a message is for. */
  function Hit(obj: Obj, msg: Call): Option<(nat, nat)>
    requires ObjOk(obj)
  {
    if obj.disabled || !MatchPath(obj.path, msg) then None
    else
      var i := FindIface(obj.interfaces, msg.iface, 0);
      if i == |obj.interfaces| then None
      else
        var m := FindMember(obj.interfaces[i], msg, 1);
        if m == |obj.interfaces[i]| then None else Some((i, m - 1))
  }

  function Pack(o: nat, p: nat, i: nat, m: nat): nat {
    o * 0x100_0000 + p * 0x1_0000 + i * 0x100 + m
  }

  /** FindInterface. */
  method FindInterface(interfaces: seq<seq<string>>, iface: string) returns (i: nat)
    requires forall k :: 0 <= k < |interfaces| ==> interfaces[k] != []
    ensures i == FindIface(interfaces, iface, 0)
  {
    i := 0;
    while i < |interfaces|
      invariant i <= |interfaces| && FindIface(interfaces, iface, 0) == FindIface(interfaces, iface, i)
    {
      if Bare(interfaces[i][0]) == iface {
        return;
      }
      i := i + 1;
    }
  }

  /** One object's turn in AJ_LookupMessageId. */
  method LookupObject(obj: Obj, msg: Call) returns (hit: Option<(nat, nat)>)
    requires ObjOk(obj) && CString(msg.member) && NoSpace(msg.member)
    ensures hit == Hit(obj, msg)
  {
    hide Matches, MatchPath, CString;
    if obj.disabled || !MatchPath(obj.path, msg) {
      return None;
    }
    var i := FindInterface(obj.interfaces, msg.iface);
    if i == |obj.interfaces| {
      return None;
    }
    var desc := obj.interfaces[i];
    var m := 1;
    while m < |desc|
      invariant 1 <= m <= |desc| && FindMember(desc, msg, 1) == FindMember(desc, msg, m)
    {
      var b := MatchMember(desc[m], msg);
      if b {
        return Some((i, m - 1));
      }
      m := m + 1;
    }
    return None;
  }

  ghost predicate Earlier(o: nat, p: nat, o': nat, p': nat) {
    o < o' || (o == o' && p < p')
  }

  /** No object in front of `(o, p)` takes the message. */
  ghost predicate NoneBefore(lists: Lists, msg: Call, o: nat, p: nat)
    requires TablesOk(lists)
  {
    forall x, y :: 0 <= x < |lists| && lists[x].Some? && 0 <= y < |lists[x].value| && Earlier(x, y, o, p) ==>
      Hit(lists[x].value[y], msg) == None
  }

  /**
   The object at `(o, p)` is the first to take the message, which gives the id; the status is that of
   the signature.
   */
  ghost predicate Found(lists: Lists, msg: Call, o: nat, p: nat, msgId: nat, status: Status)
    requires TablesOk(lists)
  {
    && o < |lists| && lists[o].Some? && p < |lists[o].value| && NoneBefore(lists, msg, o, p)
    && Hit(lists[o].value[p], msg).Some?
    && msgId == Pack(o, p, Hit(lists[o].value[p], msg).value.0, Hit(lists[o].value[p], msg).value.1)
    && SignatureStatus(lists[o].value[p], msg, status)
  }

  ghost predicate SignatureStatus(obj: Obj, msg: Call, status: Status)
    requires ObjOk(obj) && Hit(obj, msg).Some?
  {
    var (i, m) := Hit(obj, msg).value;
    if At(msg.signature, 0) == '*' then status == OK
    else if NoSpace(msg.signature)
      then status == if msg.signature == Composed(obj.interfaces[i][m + 1], Direction(msg.isCall))
      then OK else ErrSignature
    else status in {OK, ErrSignature}
  }

  /** AJ_LookupMessageId: the first object that takes the message gives it its id, and then its signature is checked. */
  method LookupMessageId(lists: Lists, msg: Call) returns (status: Status, msgId: Option<nat>, ghost at: (nat, nat))
    requires TablesOk(lists) && CString(msg.member) && NoSpace(msg.member) && CString(msg.signature)
    ensures msgId.None? ==> status == ErrNoMatch && NoneBefore(lists, msg, |lists|, 0)
    ensures msgId.Some? ==> Found(lists, msg, at.0, at.1, msgId.value, status)
    ensures msgId.Some? ==>
      Unpack(lists, msgId.value).Some?
        && (var (obj, desc, encoding) := Unpack(lists, msgId.value).value;
            TakenBy(obj, desc, encoding, msg) && SignatureJudged(encoding, msg, status))
  {
    hide Hit, Composed, CString, NoSpace, Unpack, TakenBy, SignatureJudged, Pack;
    at := (0, 0);
    var o := 0;
    while o < |lists|
      invariant o <= |lists| && NoneBefore(lists, msg, o, 0)
    {
      if lists[o].Some? {
        var list := lists[o].value;
        var p := 0;
        while p < |list|
          invariant p <= |list| && NoneBefore(lists, msg, o, p)
        {
          var hit := LookupObject(list[p], msg);
          if hit.Some? {
            at := (o, p);
            HitIn(list[p], msg);
            msgId := Some(Pack(o, p, hit.value.0, hit.value.1));
            status :=
              CheckSignature(list[p].interfaces[hit.value.0][hit.value.1 + 1], msg.signature, Direction(msg.isCall));
            FoundMeans(lists, msg, o, p, status);
            return;
          }
          p := p + 1;
        }
      }
      o := o + 1;
    }
    return ErrNoMatch, None, at;
  }

  /** What has been found, by its id. */
  lemma FoundMeans(lists: Lists, msg: Call, o: nat, p: nat, status: Status)
    requires TablesOk(lists) && o < |lists| && lists[o].Some? && p < |lists[o].value|
    requires Hit(lists[o].value[p], msg).Some? && SignatureStatus(lists[o].value[p], msg, status)
    ensures var (i, m) := Hit(lists[o].value[p], msg).value; var found := Unpack(lists, Pack(o, p, i, m));
      found.Some? && TakenBy(found.value.0, found.value.1, found.value.2, msg)
        && SignatureJudged(found.value.2, msg, status)
  {
    hide Composed, Unpack, Pack, TakenBy, Describes, OwnSignature, NameOf, MemberType;
    var obj := lists[o].value[p];
    var (i, m) := Hit(obj, msg).value;
    HitIn(obj, msg);
    HitMeans(obj, msg);
    UnpackPack(lists, o, p, i, m);
    forall d | Describes(d, obj.interfaces[i][m + 1], msg.isCall)
      ensures Composed(obj.interfaces[i][m + 1], Direction(msg.isCall)) == ArgSigs(d)
    {
      EntryMeans(d, obj.interfaces[i][m + 1], msg.isCall);
    }
  }

  lemma HitIn(obj: Obj, msg: Call)
    requires ObjOk(obj) && Hit(obj, msg).Some?
    ensures var (i, m) := Hit(obj, msg).value;
      i < |obj.interfaces| && m + 1 < |obj.interfaces[i]| && CString(obj.interfaces[i][m + 1])
  {
  }

  function Direction(isCall: bool): char {
    if isCall then IN_ARG else OUT_ARG
  }

  // ---- What the entries mean ----

  /** A member of an interface: a method or a signal, which may be sessionless, its name and its arguments. */
  datatype MemberDesc = MemberDesc(isCall: bool, sessionless: bool, name: string, args: seq<ArgDesc>)

  /** The entry for it: '?' or '!', an '&' if it is sessionless, the name, and the arguments' notation. */
  function Entry(d: MemberDesc): string {
    [if d.isCall then '?' else '!'] + ((if d.sessionless then "&" else "") + (d.name + Notation(d.args)))
  }

  /** `encoding` is the entry for the method or signal `d`. */
  ghost predicate Describes(d: MemberDesc, encoding: string, isCall: bool) {
    && encoding == Entry(d) && d.isCall == isCall && (d.sessionless ==> !d.isCall)
    && d.name != "" && (d.isCall || d.name[0] != '&') && Plain(d.name)
    && forall i :: 0 <= i < |d.args| ==> ArgOk(d.args[i])
  }

  /** The arguments of a call are those that go in, and of a signal those that go out. */
  function ArgSigs(d: MemberDesc): string {
    SigsOf(d.args, if d.isCall then '<' else '>')
  }

  /** Where the name starts in an entry. */
  lemma NameBehind(d: MemberDesc, encoding: string, isCall: bool)
    requires Describes(d, encoding, isCall)
    ensures encoding != "" && encoding[0] == if isCall then '?' else '!'
    ensures NameStart(encoding) == (if d.sessionless then 2 else 1) <= |encoding|
    ensures At(encoding, 1) == '&' && !isCall ==> d.sessionless
    ensures d.sessionless ==> !isCall && At(encoding, 1) == '&'
    ensures encoding[NameStart(encoding)..] == d.name + Notation(d.args)
  {
    var rest := (if d.sessionless then "&" else "") + (d.name + Notation(d.args));
    assert encoding[1..] == rest;
    var named := d.name + Notation(d.args);
    assert d.sessionless ==> rest[1..] == named && encoding[2..] == named;
  }

  /** From an entry come the member's kind, its name and the types of its arguments that go the message's way. */
  lemma EntryMeans(d: MemberDesc, encoding: string, isCall: bool)
    requires Describes(d, encoding, isCall)
    ensures encoding != "" && MemberType(encoding[0]) == TypeFor(isCall) && MemberType(encoding[0]) != TypeFor(!isCall)
    ensures NameOf(encoding) == d.name
    ensures OwnSignature(encoding, isCall) == Composed(encoding, Direction(isCall)) == ArgSigs(d)
  {
    hide Composed, Word;
    NameBehind(d, encoding, isCall);
    NotationStarts(d.args);
    WordOf(d.name, Notation(d.args));
    ComposedNotation(d.name, d.args, Direction(isCall));
    OwnSignatureIs(encoding, isCall);
  }

  lemma NotationStarts(args: seq<ArgDesc>)
    ensures Notation(args) != "" ==> Notation(args)[0] == ' '
  {
  }

  /** A message is for a described member if and only if it is of its kind and has its name. */
  lemma MatchesMeans(d: MemberDesc, encoding: string, isCall: bool, msg: Call)
    requires Describes(d, encoding, isCall)
    ensures Matches(encoding, msg) <==> isCall == msg.isCall && msg.member == d.name
  {
    hide Composed, Word, NameOf, MemberType, TypeFor, OwnSignature, Describes;
    EntryMeans(d, encoding, isCall);
  }

  /** An interface's name in its entry: behind a mark for its security or without one. */
  predicate Named(entry: string, iface: string) {
    entry == "$" + iface || entry == "#" + iface || (entry == iface && !("$" <= iface) && !("#" <= iface))
  }

  lemma BareIs(entry: string, iface: string)
    ensures Bare(entry) == iface <==> Named(entry, iface)
  {
    if entry != "" {
      assert entry == [entry[0]] + entry[1..];
    }
  }

  /** The member takes the message: the object is enabled and has its path, or that of all calls or all signals. */
  ghost predicate TakenBy(obj: Obj, desc: seq<string>, encoding: string, msg: Call) {
    && !obj.disabled && PathOf(obj.path, msg) && desc != [] && Named(desc[0], msg.iface)
    && forall d, isCall :: Describes(d, encoding, isCall) ==> isCall == msg.isCall && msg.member == d.name
  }

  predicate PathOf(path: string, msg: Call) {
    path == msg.path || (path != "" && path[0] == if msg.isCall then '?' else '!')
  }

  /** The signature of the message has been accepted if and only if it is that of the member's arguments. */
  ghost predicate SignatureJudged(encoding: string, msg: Call, status: Status) {
    forall d :: Describes(d, encoding, msg.isCall) && NoSpace(msg.signature) && !("*" <= msg.signature) ==>
      status == if msg.signature == ArgSigs(d) then OK else ErrSignature
  }

  ghost predicate FirstNamed(obj: Obj, i: nat, iface: string)
    requires ObjOk(obj)
  {
    && i < |obj.interfaces| && Named(obj.interfaces[i][0], iface)
    && forall k :: 0 <= k < i ==> !Named(obj.interfaces[k][0], iface)
  }

  /** What an object takes, and what it does not. */
  lemma HitMeans(obj: Obj, msg: Call)
    requires ObjOk(obj)
    ensures Hit(obj, msg).Some? ==>
      var (i, m) := Hit(obj, msg).value;
      i < |obj.interfaces| && m + 1 < |obj.interfaces[i]|
        && TakenBy(obj, obj.interfaces[i], obj.interfaces[i][m + 1], msg)
    ensures Hit(obj, msg).None? && !obj.disabled && PathOf(obj.path, msg) ==>
      forall i, m :: 0 <= i < |obj.interfaces| && 1 <= m < |obj.interfaces[i]| && FirstNamed(obj, i, msg.iface) ==>
        forall d :: Describes(d, obj.interfaces[i][m], msg.isCall) ==> msg.member != d.name
  {
    hide Matches, Bare, Describes, Named, NameOf, MemberType;
    forall k | 0 <= k < |obj.interfaces|
      ensures Bare(obj.interfaces[k][0]) == msg.iface <==> Named(obj.interfaces[k][0], msg.iface)
    {
      BareIs(obj.interfaces[k][0], msg.iface);
    }
    forall d, encoding, isCall | Describes(d, encoding, isCall)
      ensures Matches(encoding, msg) <==> isCall == msg.isCall && msg.member == d.name
    {
      MatchesMeans(d, encoding, isCall, msg);
    }
  }

  // ---- The other way ----

  /** The object, the interface and the member an id stands for; the member's index is one octet. */
  function Unpack(lists: Lists, msgId: nat): Option<(Obj, seq<string>, string)> {
    var o, p, i, m := msgId / 0x100_0000, msgId / 0x1_0000 % 256, msgId / 0x100 % 256, (msgId % 256 + 1) % 256;
    if o < |lists| && lists[o].Some? && p < |lists[o].value| && i < |lists[o].value[p].interfaces|
       && m < |lists[o].value[p].interfaces[i]| && !lists[o].value[p].disabled
    then Some((lists[o].value[p], lists[o].value[p].interfaces[i], lists[o].value[p].interfaces[i][m])) else None
  }

  /** There is a member at these indices. */
  ghost predicate Placed(lists: Lists, o: nat, p: nat, i: nat, m: nat) {
    && o < |lists| <= 256 && lists[o].Some? && p < |lists[o].value| <= 256
    && i < |lists[o].value[p].interfaces| <= 256 && m + 1 < |lists[o].value[p].interfaces[i]| <= 256
  }

  lemma UnpackPack(lists: Lists, o: nat, p: nat, i: nat, m: nat)
    requires Placed(lists, o, p, i, m) && !lists[o].value[p].disabled
    ensures Pack(o, p, i, m) < 0x1_0000_0000
    ensures Unpack(lists, Pack(o, p, i, m))
         == Some((lists[o].value[p], lists[o].value[p].interfaces[i], lists[o].value[p].interfaces[i][m + 1]))
  {
    hide Pack;
    Unpacked(o, p, i, m);
  }

  /** The octets of an id. */
  lemma Unpacked(o: nat, p: nat, i: nat, m: nat)
    requires o < 256 && p < 256 && i < 256 && m < 255
    ensures var id := Pack(o, p, i, m);
      && id < 0x1_0000_0000 && id / 0x100_0000 == o && id / 0x1_0000 % 256 == p && id / 0x100 % 256 == i
      && (id % 256 + 1) % 256 == m + 1
  {
    var id := Pack(o, p, i, m);
    Digit((o * 256 + p) * 256 + i, m);
    Digit(o * 256 + p, i);
    Digit(o, p);
    Nested(id);
  }

  lemma Digit(q: nat, r: nat)
    requires r < 256
    ensures (q * 256 + r) / 256 == q && (q * 256 + r) % 256 == r
  {
  }

  lemma Nested(n: nat)
    ensures n / 0x1_0000 == n / 256 / 256 && n / 0x100_0000 == n / 256 / 256 / 256
  {
  }

  /** UnpackMsgId, with its index checks. */
  method UnpackMsgId(lists: Lists, msgId: nat) returns (status: Status, obj: Obj, iface: seq<string>, member: string)
    requires TablesOk(lists) && msgId < 0x1_0000_0000
    ensures status == if Unpack(lists, msgId).Some? then OK else ErrInvalid
    ensures status == OK ==> Unpack(lists, msgId) == Some((obj, iface, member)) && IfaceOk(iface) && member in iface
  {
    obj, iface, member := Obj("", true, []), [], "";
    var o, p, i, m := msgId / 0x100_0000, msgId / 0x1_0000 % 256, msgId / 0x100 % 256, (msgId % 256 + 1) % 256;
    if o >= |lists| || lists[o].None? || p >= |lists[o].value| {
      return ErrInvalid, obj, iface, member;
    }
    obj := lists[o].value[p];
    if i >= |obj.interfaces| {
      return ErrInvalid, obj, iface, member;
    }
    iface := obj.interfaces[i];
    if m >= |iface| || obj.disabled {
      return ErrInvalid, obj, iface, member;
    }
    return OK, obj, iface, iface[m];
  }

  const MAX_SIGNATURE := 32

  /** The message an id stands for. */
  ghost predicate Stands(obj: Obj, iface: seq<string>, member: string, msg: Call) {
    && iface != [] && member != ""
    && msg.path == (if At(obj.path, 0) == '*' then "/" else obj.path) && msg.iface == Bare(iface[0])
    && msg.member == NameOf(member) && msg.signature == OwnSignature(member, msg.isCall)
  }

  /** The signature a message made from an entry is given: composed from the name on. */
  function OwnSignature(encoding: string, isCall: bool): string
    requires encoding != ""
  {
    Composed(encoding[NameStart(encoding)..], Direction(isCall))
  }

  /**
   A method entry that starts with the direction character instead of '?': CheckSignature
   starts at that character and takes the name for an argument, which a message made from the
   entry does not have.  A signature that starts with '*' is not checked.
   */
  predicate Misread(encoding: string, isCall: bool)
    requires encoding != ""
  {
    isCall && encoding[0] == IN_ARG && NameOf(encoding) != "" && At(OwnSignature(encoding, isCall), 0) != '*'
  }

  /**
   Composing from the name on gives what the whole entry gives, unless the entry starts with the
   direction character.
   */
  lemma OwnSignatureIs(encoding: string, isCall: bool)
    requires encoding != "" && MemberType(encoding[0]) == TypeFor(isCall)
    ensures OwnSignature(encoding, isCall) == Composed(encoding, Direction(isCall))
            <==> !(isCall && encoding[0] == IN_ARG && NameOf(encoding) != "")
  {
    hide Composed, Word;
    if isCall && encoding[0] == IN_ARG {
      ComposedMore(encoding, IN_ARG);
    } else {
      ComposedLess(encoding, Direction(isCall));
      if NameStart(encoding) == 2 {
        ComposedLess(encoding[1..], Direction(isCall));
        assert encoding[1..][1..] == encoding[2..];
      }
    }
  }

  /** An entry of this kind: a method without arguments. */
  lemma DirectionFirst()
    ensures MemberType("<Ping"[0]) == METHOD && Misread("<Ping", true) && OwnSignature("<Ping", true) == ""
  {
    hide Composed, After;
    var e, s := "<Ping", "Ping";
    assert e[1..] == s == s[0..] && s[..4] == s && s[4..] == "";
    WordIs(s, 4);
    AfterFrom(s, '<', 0);
    AfterFrom(s, '<', 1);
    AfterFrom(s, '<', 2);
    AfterFrom(s, '<', 3);
    EmptyComposed('<');
  }

  /**
   AJ_InitMessageFromMsgId for calls and signals; the member is cut off at the first space, as
   marshaling does.
   */
  method InitMessage(lists: Lists, msgId: nat, isCall: bool) returns (status: Status, msg: Call)
    requires TablesOk(lists) && msgId < 0x1_0000_0000
    ensures Unpack(lists, msgId).None? ==> status == ErrInvalid
    ensures Unpack(lists, msgId).Some? ==>
              var (obj, iface, member) := Unpack(lists, msgId).value;
              status == (if At(obj.path, 0) != '/' && At(obj.path, 0) != '*' then ErrObjectPath
                         else if |OwnSignature(member, isCall)| >= MAX_SIGNATURE then ErrResources else OK)
              && (status == OK ==> msg.isCall == isCall && Stands(obj, iface, member, msg))
    ensures Unpack(lists, msgId).Some? ==>
              var (obj, iface, member) := Unpack(lists, msgId).value;
              && (status == OK ==> iface != [] && Named(iface[0], msg.iface))
              && forall d :: Describes(d, member, isCall) ==>
                   && (status == OK ==> |ArgSigs(d)| < 32 && msg.member == d.name && msg.signature == ArgSigs(d))
                   && (status == ErrResources ==> |ArgSigs(d)| >= 32)
  {
    InitMeans(lists, msgId, isCall);
    hide Composed, CString, Word, Describes, Named;
    msg := Call(isCall, "", "", "", "");
    var obj, iface, member;
    status, obj, iface, member := UnpackMsgId(lists, msgId);
    if status != OK {
      return;
    }
    msg := msg.(path := obj.path, iface := Bare(iface[0]), member := NameOf(member));
    if At(obj.path, 0) == '*' {
      msg := msg.(path := "/");
    } else if At(obj.path, 0) != '/' {
      return ErrObjectPath, msg;
    }
    var sig;
    status, sig := ComposeSignature(member[NameStart(member)..], Direction(isCall), MAX_SIGNATURE);
    if status == OK {
      msg := msg.(signature := sig);
    }
  }

  /** The described member an id stands for. */
  lemma InitMeans(lists: Lists, msgId: nat, isCall: bool)
    ensures Unpack(lists, msgId).Some? ==>
      var (obj, iface, member) := Unpack(lists, msgId).value;
      && (iface != [] ==> Named(iface[0], Bare(iface[0])))
      && forall d :: Describes(d, member, isCall) ==>
           member != "" && NameOf(member) == d.name && OwnSignature(member, isCall) == ArgSigs(d)
  {
    hide Describes, OwnSignature, NameOf, Named, Bare;
    if Unpack(lists, msgId).Some? {
      var (obj, iface, member) := Unpack(lists, msgId).value;
      if iface != [] {
        BareIs(iface[0], Bare(iface[0]));
      }
      forall d | Describes(d, member, isCall)
        ensures member != "" && NameOf(member) == d.name && OwnSignature(member, isCall) == ArgSigs(d)
      {
        EntryMeans(d, member, isCall);
      }
    }
  }

  /** Enabled objects have paths of their own and no wild cards, interfaces and members names of their own. */
  ghost predicate Distinct(lists: Lists)
    requires TablesOk(lists)
  {
    && (forall o: nat, p: nat :: Enabled(lists, o, p) ==>
          At(lists[o].value[p].path, 0) != '?' && At(lists[o].value[p].path, 0) != '!' && DistinctIn(lists[o].value[p]))
    && (forall o: nat, p: nat, x: nat, y: nat :: Enabled(lists, o, p) && Enabled(lists, x, y) && Earlier(o, p, x, y) ==>
          lists[o].value[p].path != lists[x].value[y].path)
  }

  ghost predicate Enabled(lists: Lists, o: nat, p: nat) {
    o < |lists| && lists[o].Some? && p < |lists[o].value| && !lists[o].value[p].disabled
  }

  ghost predicate DistinctIn(obj: Obj)
    requires ObjOk(obj)
  {
    && (forall i, k :: 0 <= i < k < |obj.interfaces| ==> Bare(obj.interfaces[i][0]) != Bare(obj.interfaces[k][0]))
    && (forall i :: 0 <= i < |obj.interfaces| ==> DistinctMembers(obj.interfaces[i]))
  }

  ghost predicate DistinctMembers(desc: seq<string>)
    requires IfaceOk(desc)
  {
    forall m, k :: 1 <= m < k < |desc| ==>
      MemberType(desc[m][0]) != MemberType(desc[k][0]) || NameOf(desc[m]) != NameOf(desc[k])
  }

  /** An object takes the message its own member stands for. */
  lemma OwnHit(obj: Obj, i: nat, m: nat, msg: Call)
    requires ObjOk(obj) && DistinctIn(obj) && !obj.disabled && At(obj.path, 0) == '/'
    requires i < |obj.interfaces| && m + 1 < |obj.interfaces[i]|
    requires Stands(obj, obj.interfaces[i], obj.interfaces[i][m + 1], msg)
    requires MemberType(obj.interfaces[i][m + 1][0]) == TypeFor(msg.isCall)
    ensures Hit(obj, msg) == Some((i, m))
  {
    hide CString, NameOf, Bare, Composed;
    var desc := obj.interfaces[i];
    assert FindIface(obj.interfaces, msg.iface, 0) == i;
    assert Matches(desc[m + 1], msg);
    var k := FindMember(desc, msg, 1);
    assert DistinctMembers(desc);
    assert k <= m + 1;
    assert k == m + 1;
  }

  /**
   A call or signal made from a message id is looked up to the same id, and its signature is accepted
   unless the entry is misread.
   */
  method InitThenLookup(lists: Lists, o: nat, p: nat, i: nat, m: nat, isCall: bool)
    returns (made: Status, found: Status, msgId: Option<nat>)
    requires TablesOk(lists) && Distinct(lists) && Placed(lists, o, p, i, m)
    requires !lists[o].value[p].disabled && At(lists[o].value[p].path, 0) == '/'
    requires MemberType(lists[o].value[p].interfaces[i][m + 1][0]) == TypeFor(isCall)
    ensures made == if |OwnSignature(lists[o].value[p].interfaces[i][m + 1], isCall)| < 32
      then OK else ErrResources
    ensures made == OK ==> msgId == Some(Pack(o, p, i, m))
    ensures made == OK ==> found == if Misread(lists[o].value[p].interfaces[i][m + 1], isCall) then ErrSignature else OK
  {
    hide OwnSignature, Composed, CString, NoSpace, Hit, NameOf, Unpack, Stands, TablesOk, Distinct, DistinctIn, ObjOk,
         Pack;
    UnpackPack(lists, o, p, i, m);
    var msg;
    made, msg := InitMessage(lists, Pack(o, p, i, m), isCall);
    found, msgId := ErrNoMatch, None;
    if made == OK {
      Itself(lists, o, p, i, m, msg);
      ghost var at;
      found, msgId, at := LookupMessageId(lists, msg);
      if msgId.Some? {
        OnlyItself(lists, o, p, msg, at.0, at.1);
      }
    }
  }

  lemma Itself(lists: Lists, o: nat, p: nat, i: nat, m: nat, msg: Call)
    requires TablesOk(lists) && Distinct(lists) && Placed(lists, o, p, i, m)
    requires !lists[o].value[p].disabled && At(lists[o].value[p].path, 0) == '/'
    requires Stands(lists[o].value[p], lists[o].value[p].interfaces[i], lists[o].value[p].interfaces[i][m + 1], msg)
    requires MemberType(lists[o].value[p].interfaces[i][m + 1][0]) == TypeFor(msg.isCall)
    ensures Hit(lists[o].value[p], msg) == Some((i, m)) && msg.path == lists[o].value[p].path
    ensures CString(msg.member) && NoSpace(msg.member) && CString(msg.signature) && NoSpace(msg.signature)
    ensures var e := lists[o].value[p].interfaces[i][m + 1];
      && (Misread(e, msg.isCall) <==> At(msg.signature, 0) != '*' && msg.signature != Composed(e,
           Direction(msg.isCall)))
  {
    hide Composed, Word, Hit, MemberType, Bare;
    var e := lists[o].value[p].interfaces[i][m + 1];
    assert Enabled(lists, o, p) && ObjOk(lists[o].value[p]) && IfaceOk(lists[o].value[p].interfaces[i]);
    OwnHit(lists[o].value[p], i, m, msg);
    assert CString(e[NameStart(e)..]);
    ComposedPlain(e[NameStart(e)..], Direction(msg.isCall));
    OwnSignatureIs(e, msg.isCall);
  }

  /** No other enabled object has the path. */
  lemma OnlyItself(lists: Lists, o: nat, p: nat, msg: Call, x: nat, y: nat)
    requires TablesOk(lists) && Distinct(lists)
    requires
      && o < |lists| && lists[o].Some? && p < |lists[o].value| && !lists[o].value[p].disabled
      && msg.path == lists[o].value[p].path
    requires x < |lists| && lists[x].Some? && y < |lists[x].value| && Hit(lists[x].value[y], msg).Some?
    ensures (x, y) == (o, p)
  {
    hide FindIface, FindMember, DistinctIn, ObjOk;
    assert !lists[x].value[y].disabled && MatchPath(lists[x].value[y].path, msg);
    assert Enabled(lists, o, p) && Enabled(lists, x, y);
    assert Earlier(o, p, x, y) || Earlier(x, y, o, p) || (x, y) == (o, p);
  }
}
