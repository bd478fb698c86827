/**
  The UTF-8 automaton (wsh264/src/utf8.c) against the grammar of RFC 3629, section 4.
 */
module Utf8 {
  import opened Bytes

  const ACCEPT: nat := 0
  const REJECT: nat := 1

  /** Sixteen consecutive entries of the table `utf8d`: byte classes, then the transitions of each state. */
  function Row(k: nat): (row: seq<nat>)
    ensures |row| == 16
  {
    if k < 8 then [0, 0, 0, 0, 0, 0, 0, 0, 0, 0, 0, 0, 0, 0, 0, 0]
    else if k == 8 then [1, 1, 1, 1, 1, 1, 1, 1, 1, 1, 1, 1, 1, 1, 1, 1]
    else if k == 9 then [9, 9, 9, 9, 9, 9, 9, 9, 9, 9, 9, 9, 9, 9, 9, 9]
    else if k < 12 then [7, 7, 7, 7, 7, 7, 7, 7, 7, 7, 7, 7, 7, 7, 7, 7]
    else if k == 12 then [8, 8, 2, 2, 2, 2, 2, 2, 2, 2, 2, 2, 2, 2, 2, 2]
    else if k == 13 then [2, 2, 2, 2, 2, 2, 2, 2, 2, 2, 2, 2, 2, 2, 2, 2]
    else if k == 14 then [0xA, 0x3, 0x3, 0x3, 0x3, 0x3, 0x3, 0x3, 0x3, 0x3, 0x3, 0x3, 0x3, 0x4, 0x3, 0x3]
    else if k == 15 then [0xB, 0x6, 0x6, 0x6, 0x5, 0x8, 0x8, 0x8, 0x8, 0x8, 0x8, 0x8, 0x8, 0x8, 0x8, 0x8]
    else if k == 16 then [0x0, 0x1, 0x2, 0x3, 0x5, 0x8, 0x7, 0x1, 0x1, 0x1, 0x4, 0x6, 0x1, 0x1, 0x1, 0x1] // s0
    else if k == 18 then [1, 0, 1, 1, 1, 1, 1, 0, 1, 0, 1, 1, 1, 1, 1, 1] // s2
    else if k == 19 then [1, 2, 1, 1, 1, 1, 1, 2, 1, 2, 1, 1, 1, 1, 1, 1] // s3
    else if k == 20 then [1, 1, 1, 1, 1, 1, 1, 2, 1, 1, 1, 1, 1, 1, 1, 1] // s4
    else if k == 21 then [1, 2, 1, 1, 1, 1, 1, 1, 1, 2, 1, 1, 1, 1, 1, 1] // s5
    else if k == 22 then [1, 1, 1, 1, 1, 1, 1, 3, 1, 3, 1, 1, 1, 1, 1, 1] // s6
    else if k == 23 then [1, 3, 1, 1, 1, 1, 1, 3, 1, 3, 1, 1, 1, 1, 1, 1] // s7
    else if k == 24 then [1, 3, 1, 1, 1, 1, 1, 1, 1, 1, 1, 1, 1, 1, 1, 1] // s8
    else [1, 1, 1, 1, 1, 1, 1, 1, 1, 1, 1, 1, 1, 1, 1, 1] // s1
  }

  /** `utf8d[i]` */
  function Utf8d(i: nat): nat {
    Row(i / 16)[i % 16]
  }

  function Next(state: nat, b: byte): nat {
    Utf8d(256 + state * 16 + Utf8d(b))
  }

  /** The state after a string of bytes. */
  function Scan(state: nat, s: seq<byte>): nat
    decreases |s|
  {
    if s == [] then state else Scan(Next(state, s[0]), s[1..])
  }

  // The grammar: UTF8-octets = *( UTF8-char )

  predicate Tail(b: byte) {
    0x80 <= b <= 0xBF
  }

  predicate Char1(s: seq<byte>) {
    |s| >= 1 && s[0] <= 0x7F
  }

  predicate Char2(s: seq<byte>) {
    |s| >= 2 && 0xC2 <= s[0] <= 0xDF && Tail(s[1])
  }

  predicate Char3(s: seq<byte>) {
    |s| >= 3 && Tail(s[2]) &&
    ((s[0] == 0xE0 && 0xA0 <= s[1] <= 0xBF) ||
     (0xE1 <= s[0] <= 0xEC && Tail(s[1])) ||
     (s[0] == 0xED && 0x80 <= s[1] <= 0x9F) ||
     (0xEE <= s[0] <= 0xEF && Tail(s[1])))
  }

  predicate Char4(s: seq<byte>) {
    |s| >= 4 && Tail(s[2]) && Tail(s[3]) &&
    ((s[0] == 0xF0 && 0x90 <= s[1] <= 0xBF) ||
     (0xF1 <= s[0] <= 0xF3 && Tail(s[1])) ||
     (s[0] == 0xF4 && 0x80 <= s[1] <= 0x8F))
  }

  /** The first n bytes are one UTF8-char. */
  predicate StartsChar(s: seq<byte>, n: nat) {
    match n
    case 1 => Char1(s)
    case 2 => Char2(s)
    case 3 => Char3(s)
    case 4 => Char4(s)
    case _ => false
  }

  /** A string of UTF8-chars. */
  ghost predicate WellFormed(s: seq<byte>)
    decreases |s|
  {
    s == [] || exists n | 1 <= n <= 4 && n <= |s| :: StartsChar(s, n) && WellFormed(s[n..])
  }

  // The automaton, state by state

  function Class(b: byte): nat {
    if b < 0x80 then 0
    else if b < 0x90 then 1
    else if b < 0xA0 then 9
    else if b < 0xC0 then 7
    else if b < 0xC2 then 8
    else if b < 0xE0 then 2
    else if b == 0xE0 then 10
    else if b == 0xED then 4
    else if b < 0xF0 then 3
    else if b == 0xF0 then 11
    else if b < 0xF4 then 6
    else if b == 0xF4 then 5
    else 8
  }

  lemma {:induction false} Classes(b: byte)
    ensures Utf8d(b) == Class(b)
  {
    var k := b as int / 16;
    if k < 12 {
      LowRows(k, b as int % 16);
    } else {
      HighRows(k, b as int % 16);
    }
  }

  lemma LowRows(k: nat, i: nat)
    requires k < 12 && i < 16
    ensures Row(k)[i] == if k < 8 then 0 else if k == 8 then 1 else if k == 9 then 9 else 7
  {}

  lemma {:induction false} HighRows(k: nat, i: nat)
    requires 12 <= k < 16 && i < 16
    ensures Row(k)[i] == Class(k * 16 + i)
  {
    if k == 12 {
    } else if k == 13 {
    } else if k == 14 {
    } else {
    }
  }

  lemma {:induction false} Transition(state: nat, b: byte)
    ensures Next(state, b) == Row(16 + state)[Class(b)]
  {
    hide Row;
    Classes(b);
    assert (256 + state * 16 + Class(b)) / 16 == 16 + state;
  }

  /** The state each byte leads to from the start. */
  lemma {:induction false} StartState(b: byte)
    ensures Next(0, b) ==
            if b < 0x80 then 0
            else if b < 0xC2 then 1
            else if b < 0xE0 then 2
            else if b == 0xE0 then 4
            else if b == 0xED then 5
            else if b < 0xF0 then 3
            else if b == 0xF0 then 6
            else if b < 0xF4 then 7
            else if b == 0xF4 then 8
            else 1
  {
    hide Next;
    Transition(0, b);
  }

  lemma {:induction false} RejectAbsorbs(b: byte)
    ensures Next(REJECT, b) == REJECT
  {
    hide Next;
    Transition(1, b);
  }

  lemma {:induction false} LateStates(b: byte)
    ensures Next(2, b) == if Tail(b) then 0 else 1
    ensures Next(3, b) == if Tail(b) then 2 else 1
    ensures Next(7, b) == if Tail(b) then 3 else 1
  {
    hide Next;
    Transition(2, b);
    Transition(3, b);
    Transition(7, b);
  }

  lemma {:induction false} NarrowStates(b: byte)
    ensures Next(4, b) == if 0xA0 <= b <= 0xBF then 2 else 1
    ensures Next(5, b) == if 0x80 <= b <= 0x9F then 2 else 1
    ensures Next(6, b) == if 0x90 <= b <= 0xBF then 3 else 1
    ensures Next(8, b) == if 0x80 <= b <= 0x8F then 3 else 1
  {
    hide Next;
    Transition(4, b);
    Transition(5, b);
    Transition(6, b);
    Transition(8, b);
  }

  // Acceptance

  /** What has to follow when the automaton is in a state: nothing, or the rest of the current character. */
  ghost predicate Completes(state: nat, s: seq<byte>) {
    match state
    case 0 => WellFormed(s)
    case 2 => |s| >= 1 && Tail(s[0]) && WellFormed(s[1..])
    case 3 => |s| >= 2 && Tail(s[0]) && Tail(s[1]) && WellFormed(s[2..])
    case 4 => |s| >= 2 && 0xA0 <= s[0] <= 0xBF && Tail(s[1]) && WellFormed(s[2..])
    case 5 => |s| >= 2 && 0x80 <= s[0] <= 0x9F && Tail(s[1]) && WellFormed(s[2..])
    case 6 => |s| >= 3 && 0x90 <= s[0] <= 0xBF && Tail(s[1]) && Tail(s[2]) && WellFormed(s[3..])
    case 7 => |s| >= 3 && Tail(s[0]) && Tail(s[1]) && Tail(s[2]) && WellFormed(s[3..])
    case 8 => |s| >= 3 && 0x80 <= s[0] <= 0x8F && Tail(s[1]) && Tail(s[2]) && WellFormed(s[3..])
    case _ => false
  }

  /** The first byte decides which kind of character a well-formed string starts with. */
  lemma {:induction false} WellFormedStep(s: seq<byte>)
    requires s != []
    ensures WellFormed(s) <==>
            || (Char1(s) && WellFormed(s[1..]))
            || (Char2(s) && WellFormed(s[2..]))
            || (Char3(s) && WellFormed(s[3..]))
            || (Char4(s) && WellFormed(s[4..]))
  {
    if Char1(s) && WellFormed(s[1..]) {
      assert StartsChar(s, 1);
    }
    if Char2(s) && WellFormed(s[2..]) {
      assert StartsChar(s, 2);
    }
    if Char3(s) && WellFormed(s[3..]) {
      assert StartsChar(s, 3);
    }
    if Char4(s) && WellFormed(s[4..]) {
      assert StartsChar(s, 4);
    }
  }

  lemma DropOne(s: seq<byte>)
    requires s != []
    ensures |s| >= 2 ==> s[1..][1..] == s[2..]
    ensures |s| >= 3 ==> s[1..][2..] == s[3..]
    ensures |s| >= 4 ==> s[1..][3..] == s[4..]
  {}

  /** One byte of the automaton is one byte of the grammar. */
  lemma {:induction false} StepCompletes(state: nat, s: seq<byte>)
    requires s != [] && state <= 8
    ensures Completes(state, s) <==> Completes(Next(state, s[0]), s[1..])
    ensures Next(state, s[0]) <= 8
  {
    hide Next, WellFormed;
    var b := s[0];
    StartState(b);
    RejectAbsorbs(b);
    LateStates(b);
    NarrowStates(b);
    DropOne(s);
    if state == 0 {
      WellFormedStep(s);
    }
  }

  lemma {:induction false} ScanCompletes(state: nat, s: seq<byte>)
    requires state <= 8
    ensures Scan(state, s) == ACCEPT <==> Completes(state, s)
    ensures Scan(state, s) <= 8
    decreases |s|
  {
    hide Next;
    if s != [] {
      StepCompletes(state, s);
      ScanCompletes(Next(state, s[0]), s[1..]);
    }
  }

  /** The automaton accepts exactly the byte strings of the grammar. */
  lemma {:induction false} AcceptsExactly(s: seq<byte>)
    ensures Scan(ACCEPT, s) == ACCEPT <==> WellFormed(s)
  {
    ScanCompletes(ACCEPT, s);
  }

  lemma {:induction false} RejectForGood(s: seq<byte>)
    ensures Scan(REJECT, s) == REJECT
    decreases |s|
  {
    hide Next;
    if s != [] {
      RejectAbsorbs(s[0]);
      RejectForGood(s[1..]);
    }
  }

  /** A byte string that completes the character a state is in the middle of. */
  function Completion(state: nat): seq<byte> {
    match state
    case 2 => [0x80]
    case 3 => [0x80, 0x80]
    case 4 => [0xA0, 0x80]
    case 5 => [0x80, 0x80]
    case 6 => [0x90, 0x80, 0x80]
    case 7 => [0x80, 0x80, 0x80]
    case 8 => [0x80, 0x80, 0x80]
    case _ => []
  }

  lemma {:induction false} CompletionCompletes(state: nat)
    requires state <= 8 && state != REJECT
    ensures Completes(state, Completion(state))
  {
    assert WellFormed([]);
    var c := Completion(state);
    assert c[|c|..] == [];
  }

  /** The automaton rejects as soon as, and no sooner than, nothing that may follow makes the string well-formed. */
  lemma {:induction false} RejectsWhenHopeless(s: seq<byte>)
    ensures Scan(ACCEPT, s) == REJECT <==> forall t: seq<byte> :: !WellFormed(s + t)
  {
    hide WellFormed;
    var state := Scan(ACCEPT, s);
    ScanCompletes(ACCEPT, s);
    if state == REJECT {
      forall t: seq<byte>
        ensures !WellFormed(s + t)
      {
        ScanAppend(ACCEPT, s, t);
        RejectForGood(t);
        AcceptsExactly(s + t);
      }
    } else {
      var t := Completion(state);
      CompletionCompletes(state);
      ScanAppend(ACCEPT, s, t);
      ScanCompletes(state, t);
      AcceptsExactly(s + t);
      assert WellFormed(s + t);
    }
  }

  lemma {:induction false} ScanAppend(state: nat, xs: seq<byte>, ys: seq<byte>)
    ensures Scan(state, xs + ys) == Scan(Scan(state, xs), ys)
    decreases |xs|
  {
    hide Next;
    if xs == [] {
      assert xs + ys == ys;
    } else {
      assert (xs + ys)[0] == xs[0] && (xs + ys)[1..] == xs[1..] + ys;
      ScanAppend(Next(state, xs[0]), xs[1..], ys);
    }
  }

  /**
    Validation of a fragmented message: a fragment that reaches the reject state fails at once, and the
    last one has to end in the accept state.
   */
  function Fragmentwise(state: nat, fragments: seq<seq<byte>>): bool
    requires fragments != []
    decreases |fragments|
  {
    var state' := Scan(state, fragments[0]);
    if |fragments| == 1 then state' == ACCEPT
    else state' != REJECT && Fragmentwise(state', fragments[1..])
  }

  lemma {:induction false} FragmentwiseScan(state: nat, fragments: seq<seq<byte>>)
    requires fragments != []
    ensures Fragmentwise(state, fragments) <==> Scan(state, Concat(fragments)) == ACCEPT
    decreases |fragments|
  {
    hide Next;
    var rest := Concat(fragments[1..]);
    ScanAppend(state, fragments[0], rest);
    var state' := Scan(state, fragments[0]);
    if |fragments| == 1 {
      assert rest == [];
    } else {
      if state' == REJECT {
        RejectForGood(rest);
      }
      FragmentwiseScan(state', fragments[1..]);
    }
  }

  /** Validating fragment by fragment with the state carried over is validating the whole message. */
  lemma {:induction false} FragmentwiseExactly(fragments: seq<seq<byte>>)
    requires fragments != []
    ensures Fragmentwise(ACCEPT, fragments) <==> WellFormed(Concat(fragments))
  {
    FragmentwiseScan(ACCEPT, fragments);
    AcceptsExactly(Concat(fragments));
  }

  // The program's loops

  method IsUtf8LenState(s: seq<byte>, state: nat) returns (r: nat)
    ensures r == Scan(state, s)
  {
    hide Next;
    r := state;
    var i := 0;
    assert s[0..] == s;
    while i < |s|
      invariant 0 <= i <= |s|
      invariant Scan(r, s[i..]) == Scan(state, s)
    {
      assert s[i..][1..] == s[i + 1..];
      r := Next(r, s[i]);
      i := i + 1;
    }
  }

  method IsUtf8Len(s: seq<byte>) returns (ok: bool)
    ensures ok <==> WellFormed(s)
  {
    var state := IsUtf8LenState(s, ACCEPT);
    AcceptsExactly(s);
    return state == ACCEPT;
  }
}
