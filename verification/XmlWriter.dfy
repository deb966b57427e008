/** The two writers of the introspection XML: one adds up its size, the other marshals it. */
module XmlWriter {
  import opened Common
  import opened Wire
  import opened IoBuf
  import opened Marshaling
  import opened Introspect

  /** The octets of a C string. */
  function CharOctets(s: string): (o: seq<byte>)
    ensures |o| == |s| && forall i :: 0 <= i < |s| && s[i] as int < 256 ==> o[i] == s[i] as int
  {
    seq(|s|, i requires 0 <= i < |s| => s[i] as int % 256)
  }

  /** The octets of what the writer is handed. */
  function Xml(pieces: seq<Piece>): seq<byte> {
    if pieces == [] then [] else CharOctets(pieces[0].Text()) + Xml(pieces[1..])
  }

  lemma {:induction false} XmlMore(pieces: seq<Piece>, p: Piece)
    ensures Xml(pieces + [p]) == Xml(pieces) + CharOctets(p.Text())
  {
    hide CharOctets;
    if pieces == [] {
      assert [p][1..] == [];
    } else {
      assert (pieces + [p])[1..] == pieces[1..] + [p];
      XmlMore(pieces[1..], p);
    }
  }

  lemma {:induction false} XmlAtLeast(pieces: seq<Piece>, i: nat)
    requires i < |pieces|
    ensures |Xml(pieces)| >= |pieces[i].Text()|
  {
    hide CharOctets;
    if i > 0 {
      XmlAtLeast(pieces[1..], i - 1);
    }
  }

  /** An object without interfaces whose XML is too long for a reply. */
  lemma LongXml(language: Option<string>)
    ensures var n := Node(seq(65531, _ => 'x'), [], false, false, false, false, 1, 0);
      var t := Tables([n], _ => NoLookup);
      && t.Ok() && Select(t, n.path, 0) == Some(Listed(0))
      && XmlOf(t, Listed(0), language).Some? && |Xml(XmlOf(t, Listed(0), language).value)| >= 65531
  {
    hide Xml, Secured, Children;
    var n := Node(seq(65531, _ => 'x'), [], false, false, false, false, 1, 0);
    var t := Tables([n], _ => NoLookup);
    var pieces := XmlOf(t, Listed(0), language).value;
    assert pieces[2] == Whole(n.path);
    XmlAtLeast(pieces, 2);
  }

  lemma SumInBits(a: nat, b: nat)
    ensures (a % 0x1_0000_0000 + b) % 0x1_0000_0000 == (a + b) % 0x1_0000_0000
  {
    var q := a / 0x1_0000_0000;
    assert a + b == q * 0x1_0000_0000 + (a % 0x1_0000_0000 + b);
  }

  /** A writer and its context: SizeXML and the length so far, or WriteXML and the reply. */
  class Writer {
    const sizing: bool
    const reply: Message
    var len: nat
    var status: Status
    /** What it has been handed. */
    ghost var out: seq<Piece>
    /** What had been written, and what was left of the announcement, when it started. */
    ghost const base: seq<byte>
    ghost const left: nat

    /** All that a writer changes. */
    ghost function Frame(): set<object> {
      {this} + if sizing then {} else {reply, reply.tx, reply.tx.data}
    }

    ghost predicate Valid()
      reads this, reply, reply.tx, reply.tx.data
    {
      if sizing then len == |Xml(out)| % 0x1_0000_0000
      else
        && reply.tx.InBounds() && !reply.hdr && reply.tx.data.Length > 0
        && (status == OK ==>
             |Xml(out)| <= left && reply.bodyBytes == left - |Xml(out)| && reply.tx.Written() == base + Xml(out))
        && (|Xml(out)| <= left ==> status == OK || reply.tx.failed)
    }

    constructor (sizing: bool, reply: Message)
      requires !sizing ==> reply.tx.InBounds() && !reply.hdr && reply.tx.data.Length > 0
      ensures Valid() && out == [] && this.sizing == sizing && this.reply == reply && status == OK
      ensures !sizing ==> left == reply.bodyBytes && base == reply.tx.Written()
    {
      this.sizing, this.reply, len, status, out := sizing, reply, 0, OK, [];
      base, left := if sizing then [] else reply.tx.Written(), reply.bodyBytes;
    }

    /** SizeXML and WriteXML. */
    method Write(p: Piece)
      requires Valid()
      modifies Frame()
      ensures Valid() && out == old(out) + [p]
    {
      hide Xml, CharOctets;
      XmlMore(out, p);
      if sizing {
        SumInBits(|Xml(out)|, |p.Text()|);
        len := (len + |p.Text()|) % 0x1_0000_0000;
      } else if status == OK {
        Assoc(base, Xml(out), CharOctets(p.Text()));
        status := reply.MarshalRaw(CharOctets(p.Text()));
      }
      out := out + [p];
    }
  }
}
