/** The compact member notation of aj_introspect.c: composing a signature from it and checking one against it. */
module Signatures {
  import opened Common

  const IN_ARG := '<'
  const OUT_ARG := '>'

  /** A character of a C string; behind its end is the terminator. */
  function At(s: string, i: nat): char {
    if i < |s| then s[i] else '\0'
  }

  /** A C string holds no terminator. */
  predicate CString(s: string) {
    forall i :: 0 <= i < |s| ==> s[i] != '\0'
  }

  predicate NoSpace(s: string) {
    forall i :: 0 <= i < |s| ==> s[i] != ' '
  }

  /** What follows the first `c`; nothing if there is none. */
  function After(s: string, c: char): (r: string)
    ensures |r| <= |s| && (s != "" ==> |r| < |s|)
  {
    if s == "" then "" else if s[0] == c then s[1..] else After(s[1..], c)
  }

  /** `s` up to its first space. */
  function Word(s: string): (w: string)
    ensures |w| <= |s| && w == s[..|w|] && NoSpace(w)
    ensures |w| < |s| ==> s[|w|] == ' '
  {
    if s == "" || s[0] == ' ' then "" else [s[0]] + Word(s[1..])
  }

  /** The signature a member's arguments in one direction have. */
  function Composed(encoding: string, direction: char): string
    decreases |encoding|
  {
    if encoding == "" then ""
    else
      var rest := After(encoding, direction);
      Word(rest) + Composed(rest[|Word(rest)|..], direction)
  }

  lemma {:induction false} AfterFrom(s: string, c: char, i: nat)
    requires i < |s|
    ensures After(s[i..], c) == if s[i] == c then s[i + 1..] else After(s[i + 1..], c)
  {
    assert s[i..][1..] == s[i + 1..];
  }

  /** A word is determined by where it stops. */
  lemma {:induction false} WordIs(s: string, n: nat)
    requires n <= |s| && NoSpace(s[..n]) && (n < |s| ==> s[n] == ' ')
    ensures Word(s) == s[..n]
  {
    if n > 0 {
      assert s[..n][0] == s[0];
      assert s[1..][..n - 1] == s[..n][1..];
      WordIs(s[1..], n - 1);
    }
  }

  /** A word reaches at least as far as there are no spaces. */
  lemma {:induction false} WordAtLeast(s: string, n: nat)
    requires n <= |s| && NoSpace(s[..n])
    ensures |Word(s)| >= n && Word(s)[..n] == s[..n]
  {
    if n > 0 {
      assert s[..n][0] == s[0];
      assert s[1..][..n - 1] == s[..n][1..];
      WordAtLeast(s[1..], n - 1);
    }
  }

  lemma ComposedStep(e: string, rest: string, n: nat, direction: char)
    requires
      && e != "" && rest == After(e, direction) && n <= |rest| && NoSpace(rest[..n])
      && (n < |rest| ==> rest[n] == ' ')
    ensures Composed(e, direction) == rest[..n] + Composed(rest[n..], direction)
  {
    WordIs(rest, n);
  }

  /** The inner loop both functions start with: on to the first character after the direction. */
  method SkipTo(encoding: string, direction: char, from: nat) returns (i: nat)
    requires from <= |encoding|
    ensures from <= i <= |encoding| && encoding[i..] == After(encoding[from..], direction)
    ensures from < |encoding| ==> from < i
  {
    i := from;
    while i < |encoding|
      invariant from <= i <= |encoding| && After(encoding[i..], direction) == After(encoding[from..], direction)
    {
      AfterFrom(encoding, direction, i);
      i := i + 1;
      if encoding[i - 1] == direction {
        return;
      }
    }
    assert encoding[i..] == "";
  }

  /** ComposeSignature: the signature, if the buffer of `len` characters can hold it. */
  method ComposeSignature(encoding: string, direction: char, len: nat) returns (status: Status, sig: string)
    requires len > 0
    ensures status == if |Composed(encoding, direction)| < len then OK else ErrResources
    ensures status == OK ==> sig == Composed(encoding, direction)
  {
    hide Composed, After, Word;
    sig := "";
    var left := len;
    var i := 0;
    assert encoding[0..] == encoding;
    while i < |encoding|
      invariant i <= |encoding| && left + |sig| == len && left > 0
      invariant Composed(encoding, direction) == sig + Composed(encoding[i..], direction)
      decreases |encoding| - i
    {
      ghost var from := i;
      i := SkipTo(encoding, direction, i);
      ghost var start, before := i, sig;
      while i < |encoding| && encoding[i] != ' '
        invariant start <= i <= |encoding| && left + |sig| == len && left > 0
        invariant sig == before + encoding[start..i] && NoSpace(encoding[start..i])
        decreases |encoding| - i
      {
        NoSpaceMore(encoding, start, i);
        left := left - 1;
        if left == 0 {
          TooLong(encoding, direction, from, start, i + 1, before);
          return ErrResources, sig;
        }
        sig := sig + [encoding[i]];
        i := i + 1;
      }
      ghost var rest := encoding[start..];
      assert rest[..i - start] == encoding[start..i] && rest[i - start..] == encoding[i..];
      ComposedStep(encoding[from..], rest, i - start, direction);
    }
    ComposedNone(direction);
    assert encoding[i..] == "";
    status := OK;
  }

  lemma NoSpaceMore(s: string, a: nat, b: nat)
    requires a <= b < |s| && NoSpace(s[a..b]) && s[b] != ' '
    ensures NoSpace(s[a..b + 1]) && s[a..b + 1] == s[a..b] + [s[b]]
  {
    assert s[a..b + 1] == s[a..b] + [s[b]];
  }

  lemma ComposedLess(s: string, direction: char)
    requires s != "" && s[0] != direction
    ensures Composed(s[1..], direction) == Composed(s, direction)
  {
    assert s[0..] == s;
    AfterFrom(s, direction, 0);
  }

  /** What follows the first `c` in and behind a word. */
  lemma {:induction false} AfterIn(s: string, c: char)
    ensures c in Word(s) ==> After(Word(s), c) + s[|Word(s)|..] == After(s, c)
    ensures c !in Word(s) ==> After(s, c) == After(s[|Word(s)|..], c)
  {
    if s != "" && s[0] != ' ' {
      AfterIn(s[1..], c);
      assert Word(s)[1..] == Word(s[1..]);
      assert s[|Word(s)|..] == s[1..][|Word(s[1..])|..];
    } else {
      assert s[0..] == s;
    }
  }

  lemma WordOf(w: string, tail: string)
    requires NoSpace(w) && (tail != "" ==> tail[0] == ' ')
    ensures Word(w + tail) == w
  {
    assert (w + tail)[..|w|] == w;
    WordIs(w + tail, |w|);
  }

  lemma {:induction false} AfterShorter(s: string, c: char)
    requires c in s && NoSpace(s)
    ensures |After(s, c)| < |s| && NoSpace(After(s, c))
  {
    if s[0] != c {
      AfterShorter(s[1..], c);
    }
  }

  /**
   An entry that starts with the direction character: its name is taken for an argument, and is missed
   when the composing starts behind the character.
   */
  lemma ComposedMore(e: string, direction: char)
    requires e != "" && e[0] == direction != ' '
    ensures |Composed(e[1..], direction)| <= |Composed(e, direction)|
    ensures Composed(e[1..], direction) == Composed(e, direction) <==> Word(e[1..]) == ""
  {
    var s := e[1..];
    var w := Word(s);
    var tail := s[|w|..];
    assert Composed(e, direction) == w + Composed(tail, direction);
    AfterIn(s, direction);
    if direction in w {
      AfterShorter(w, direction);
      WordOf(After(w, direction), tail);
      assert (After(w, direction) + tail)[|After(w, direction)|..] == tail;
      assert Composed(s, direction) == After(w, direction) + Composed(tail, direction);
    } else if s != "" {
      SameAfter(s, tail, direction);
    }
  }

  lemma SameAfter(s: string, t: string, direction: char)
    requires After(s, direction) == After(t, direction)
    ensures Composed(s, direction) == Composed(t, direction)
  {
    EmptyComposed(direction);
  }

  lemma EmptyComposed(direction: char)
    ensures forall s :: After(s, direction) == "" ==> Composed(s, direction) == ""
  {
  }

  lemma ComposedNone(direction: char)
    ensures Composed("", direction) == ""
  {
  }

  /** What has been copied, and one character more, is part of the signature. */
  lemma TooLong(encoding: string, direction: char, from: nat, start: nat, i: nat, before: string)
    requires
      && from < start <= i <= |encoding| && encoding[start..] == After(encoding[from..], direction)
      && NoSpace(encoding[start..i])
    requires Composed(encoding, direction) == before + Composed(encoding[from..], direction)
    ensures |Composed(encoding, direction)| >= |before| + i - start
    ensures Composed(encoding, direction)[..|before| + i - start] == before + encoding[start..i]
  {
    hide After, Word;
    var rest := encoding[start..];
    assert rest[..i - start] == encoding[start..i];
    WordAtLeast(rest, i - start);
    var whole := Composed(encoding[from..], direction);
    assert whole == Word(rest) + Composed(rest[|Word(rest)|..], direction);
    assert whole[..i - start] == Word(rest)[..i - start];
  }

  /** The inner loop that matches a single argument. */
  method MatchArg(encoding: string, sig: string, start: nat, from: nat) returns (i: nat, j: nat)
    requires CString(encoding) && start <= |encoding| && from <= |sig|
    ensures start <= i <= |encoding| && from <= j <= |sig| && sig[..j] == sig[..from] + encoding[start..i]
    ensures i < |encoding| ==> At(sig, j) != encoding[i]
    ensures NoSpace(sig) ==> NoSpace(encoding[start..i])
  {
    i, j := start, from;
    while i < |encoding| && At(sig, j) == encoding[i]
      invariant start <= i <= |encoding| && from <= j <= |sig|
      invariant sig[..j] == sig[..from] + encoding[start..i]
      invariant NoSpace(sig) ==> NoSpace(encoding[start..i])
    {
      assert j < |sig| && sig[j] == encoding[i];
      assert sig[..j + 1] == sig[..j] + [sig[j]];
      if NoSpace(sig) {
        NoSpaceMore(encoding, start, i);
      }
      i := i + 1;
      j := j + 1;
    }
  }

  lemma Mismatch(encoding: string, sig: string, start: nat, i: nat, before: string, j: nat, composed: string)
    requires
      && start <= i < |encoding| && j <= |sig| && sig[..j] == before + encoding[start..i]
      && At(sig, j) != encoding[i]
    requires
      && |composed| >= |before| + i + 1 - start
      && composed[..|before| + i + 1 - start] == before + encoding[start..i + 1]
    ensures composed != sig
  {
    assert |before| + i - start == j;
    assert composed[j] == composed[..j + 1][j] == encoding[start..i + 1][i - start] == encoding[i];
  }

  /**
   CheckSignature: a message signature without wild card and without spaces is accepted if and
   only if it is the one the notation composes.
   */
  method CheckSignature(encoding: string, sig: string, direction: char) returns (status: Status)
    requires CString(sig) && CString(encoding)
    ensures At(sig, 0) == '*' ==> status == OK
    ensures At(sig, 0) != '*' && NoSpace(sig) ==>
      status == if sig == Composed(encoding, direction) then OK else ErrSignature
    ensures status in {OK, ErrSignature}
  {
    hide Composed, After, Word;
    if At(sig, 0) == '*' {
      return OK;
    }
    var i, j := 0, 0;
    assert encoding[0..] == encoding;
    while i < |encoding|
      invariant i <= |encoding| && j <= |sig|
      invariant NoSpace(sig) ==> Composed(encoding, direction) == sig[..j] + Composed(encoding[i..], direction)
      decreases |encoding| - i
    {
      ghost var from := i;
      i := SkipTo(encoding, direction, i);
      ghost var start, before := i, sig[..j];
      i, j := MatchArg(encoding, sig, i, j);
      if i < |encoding| && encoding[i] != ' ' {
        if NoSpace(sig) {
          NoSpaceMore(encoding, start, i);
          TooLong(encoding, direction, from, start, i + 1, before);
          Mismatch(encoding, sig, start, i, before, j, Composed(encoding, direction));
        }
        return ErrSignature;
      }
      ghost var rest := encoding[start..];
      assert rest[..i - start] == encoding[start..i] && rest[i - start..] == encoding[i..];
      if NoSpace(sig) {
        ComposedStep(encoding[from..], rest, i - start, direction);
      }
    }
    ComposedNone(direction);
    assert encoding[i..] == "";
    status := if j == |sig| then OK else ErrSignature;
  }

  // ---- What the notation means ----

  /** One argument of a member: its name, which way it goes, and its type. */
  datatype ArgDesc = ArgDesc(name: string, direction: char, sig: string)

  /** No space and no direction character. */
  predicate Plain(s: string) {
    forall i :: 0 <= i < |s| ==> s[i] != ' ' && s[i] != '<' && s[i] != '>'
  }

  predicate ArgOk(a: ArgDesc) {
    Plain(a.name) && Plain(a.sig) && a.direction in {'<', '>'}
  }

  /** The arguments as they follow the member's name. */
  function Notation(args: seq<ArgDesc>): string {
    if args == [] then "" else " " + args[0].name + [args[0].direction] + args[0].sig + Notation(args[1..])
  }

  /** The types of the arguments that go one way, in order. */
  function SigsOf(args: seq<ArgDesc>, direction: char): string {
    if args == [] then ""
      else (if args[0].direction == direction then args[0].sig else "") + SigsOf(args[1..], direction)
  }

  lemma {:induction false} AfterNone(s: string, t: string, c: char)
    requires forall i :: 0 <= i < |s| ==> s[i] != c
    ensures After(s + t, c) == After(t, c)
  {
    if s == "" {
      assert s + t == t;
    } else {
      assert (s + t)[1..] == s[1..] + t;
      AfterNone(s[1..], t, c);
    }
  }

  lemma ComposedSkip(s: string, t: string, direction: char)
    requires forall i :: 0 <= i < |s| ==> s[i] != direction
    ensures Composed(s + t, direction) == Composed(t, direction)
  {
    AfterNone(s, t, direction);
    if s + t != "" && t == "" {
      assert After(t, direction) == "";
    }
  }

  /** One argument's part of the notation. */
  lemma ComposedArg(a: ArgDesc, rest: string, direction: char)
    requires ArgOk(a) && direction in {'<', '>'} && (rest != "" ==> rest[0] == ' ')
    ensures Composed(" " + a.name + [a.direction] + a.sig + rest, direction)
         == (if a.direction == direction then a.sig else "") + Composed(rest, direction)
  {
    hide Composed, Word;
    var front := " " + a.name;
    if a.direction == direction {
      var all, tail := " " + a.name + [a.direction] + a.sig + rest, [direction] + a.sig + rest;
      assert all == front + tail;
      AfterNone(front, tail, direction);
      assert tail[1..] == a.sig + rest;
      assert (a.sig + rest)[..|a.sig|] == a.sig && (a.sig + rest)[|a.sig|..] == rest;
      ComposedStep(all, a.sig + rest, |a.sig|, direction);
    } else {
      ComposedSkip(front + [a.direction] + a.sig, rest, direction);
      assert "" + Composed(rest, direction) == Composed(rest, direction);
    }
  }

  /** From a member's notation come exactly the types of its arguments in the direction asked for. */
  lemma {:induction false} ComposedNotation(name: string, args: seq<ArgDesc>, direction: char)
    requires Plain(name) && direction in {'<', '>'} && forall i :: 0 <= i < |args| ==> ArgOk(args[i])
    ensures Composed(name + Notation(args), direction) == SigsOf(args, direction)
    decreases |args|
  {
    hide Composed, ArgOk;
    ComposedSkip(name, Notation(args), direction);
    if args == [] {
      ComposedNone(direction);
    } else {
      ComposedNotation("", args[1..], direction);
      assert "" + Notation(args[1..]) == Notation(args[1..]);
      ComposedArg(args[0], Notation(args[1..]), direction);
    }
  }

  /** A composed signature has no spaces. */
  lemma {:induction false} ComposedPlain(encoding: string, direction: char)
    requires CString(encoding)
    ensures NoSpace(Composed(encoding, direction)) && CString(Composed(encoding, direction))
    decreases |encoding|
  {
    if encoding != "" {
      var rest := After(encoding, direction);
      AfterOf(encoding, direction);
      ComposedPlain(rest[|Word(rest)|..], direction);
    }
  }

  lemma {:induction false} AfterOf(s: string, c: char)
    requires CString(s)
    ensures CString(After(s, c))
  {
    if s != "" && s[0] != c {
      AfterOf(s[1..], c);
    }
  }
}
