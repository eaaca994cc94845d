/** The domain-name parser of the DNS decoder: labels, compression pointers, a depth guard.

    Names follow RFC 1035: a name is a list of labels, each a length byte 1..63 and its bytes, ended
    by a zero byte (section 3.1) or by a two-byte pointer to another place in the message (section
    4.1.4).  The two top bits of the first byte tell the cases apart: 192..255 is a pointer,
    64..191 is reserved. */
module DnsName {

  type byte = x: int | 0 <= x < 256

  const DOT: byte := 46
  const MAX_DEPTH: nat := 16

  /** Append a label to a partly read name. */
  function AddLabel(name: seq<byte>, word: seq<byte>): seq<byte> {
    (if name == [] then [] else name + [DOT]) + word
  }

  /** Append the name found behind a pointer. */
  function AddTail(name: seq<byte>, tail: seq<byte>): seq<byte> {
    if name != [] && tail != [] then name + [DOT] + tail else name + tail
  }

  function PointerTarget(hi: byte, lo: byte): nat
    requires hi >= 192
  {
    (hi - 192) * 256 + lo
  }

  function Left(p: seq<byte>, pos: nat): nat {
    if pos <= |p| then |p| - pos else 0
  }

  /** The label loop, started with `name` already read. */
  function ParseFrom(p: seq<byte>, pos: nat, name: seq<byte>, depth: nat): (seq<byte>, nat)
    requires depth <= MAX_DEPTH
    decreases MAX_DEPTH + 1 - depth, Left(p, pos), 0
  {
    if pos >= |p| then ([], pos)
    else if p[pos] == 0 then (name, pos + 1)
    else if p[pos] >= 192 then
      if pos + 1 >= |p| then ([], pos)
      else (AddTail(name, Parse(p, PointerTarget(p[pos], p[pos + 1]), depth + 1).0), pos + 2)
    else if p[pos] >= 64 then ([], pos)
    else if pos + 1 + p[pos] > |p| then ([], pos + 1)
    else ParseFrom(p, pos + 1 + p[pos], AddLabel(name, p[pos + 1..pos + 1 + p[pos]]), depth)
  }

  /** What dns_parse_name returns for the cursor `pos`: the name and the new cursor. */
  function Parse(p: seq<byte>, pos: nat, depth: nat): (seq<byte>, nat)
    decreases MAX_DEPTH + 1 - depth, Left(p, pos), 1
  {
    if depth > MAX_DEPTH then ([], pos) else ParseFrom(p, pos, [], depth)
  }

  /** The parser as it runs, the cursor being passed in and out.  It reads nothing at or beyond
      `plen`: the result depends on the first `plen` bytes alone. */
  method DnsParseName(payload: array<byte>, plen: nat, start: nat, depth: nat) returns (name: seq<byte>, pos: nat)
    requires plen <= payload.Length
    ensures (name, pos) == Parse(payload[..plen], start, depth)
    decreases MAX_DEPTH + 1 - depth
  {
    pos := start;
    if depth > MAX_DEPTH {
      return [], pos;
    }
    name := [];
    ghost var p := payload[..plen];
    while true
      invariant ParseFrom(p, start, [], depth) == ParseFrom(p, pos, name, depth)
      decreases Left(p, pos)
    {
      if pos >= plen {
        return [], pos;
      }
      var lenByte := payload[pos];
      assert lenByte == p[pos];
      if lenByte == 0 {
        pos := pos + 1;
        break;
      }
      if lenByte >= 192 {
        if pos + 1 >= plen {
          return [], pos;
        }
        var origPos := pos + 2;
        assert payload[pos + 1] == p[pos + 1];
        var tail, _ := DnsParseName(payload, plen, PointerTarget(lenByte, payload[pos + 1]), depth + 1);
        if name != [] && tail != [] {
          name := name + [DOT];
        }
        name := name + tail;
        pos := origPos;
        return;
      }
      if lenByte >= 64 {
        return [], pos;
      }
      var labelLen := lenByte;
      pos := pos + 1;
      if pos + labelLen > plen {
        return [], pos;
      }
      if name != [] {
        name := name + [DOT];
      }
      assert payload[pos..pos + labelLen] == p[pos..pos + labelLen];
      name := name + payload[pos..pos + labelLen];
      pos := pos + labelLen;
    }
  }

  // ----------------------------------------------------------------------------- safety on any bytes

  lemma Distribute(k: nat, n: nat)
    ensures (k + 1) * n == k * n + n
  {
  }

  lemma {:induction false} ParseFromBounds(p: seq<byte>, pos: nat, name: seq<byte>, depth: nat)
    requires depth <= MAX_DEPTH
    ensures var (r, end) := ParseFrom(p, pos, name, depth);
            && pos <= end && (pos <= |p| ==> end <= |p|)
            && |r| <= |name| + Left(p, pos) + (MAX_DEPTH - depth) * |p|
    decreases MAX_DEPTH + 1 - depth, Left(p, pos), 0
  {
    if pos >= |p| || p[pos] == 0 {
    } else if p[pos] >= 192 {
      if pos + 1 < |p| {
        NameBounds(p, PointerTarget(p[pos], p[pos + 1]), depth + 1);
      }
    } else if p[pos] < 64 && pos + 1 + p[pos] <= |p| {
      ParseFromBounds(p, pos + 1 + p[pos], AddLabel(name, p[pos + 1..pos + 1 + p[pos]]), depth);
    }
  }

  /** On arbitrary bytes, pointer loops included, the cursor stays inside the message and moves
      forward only, and the name is at most 17 messages long. */
  lemma NameBounds(p: seq<byte>, pos: nat, depth: nat)
    requires depth <= MAX_DEPTH + 1
    ensures var (name, end) := Parse(p, pos, depth);
            && pos <= end && (pos <= |p| ==> end <= |p|)
            && |name| <= (MAX_DEPTH + 1 - depth) * |p|
    decreases MAX_DEPTH + 1 - depth, Left(p, pos), 1
  {
    if depth <= MAX_DEPTH {
      ParseFromBounds(p, pos, [], depth);
      Distribute(MAX_DEPTH - depth, |p|);
    }
  }

  // ------------------------------------------------------------------- what a name is, by RFC 1035

  /** How the labels at some place end. */
  datatype End = Terminated | Jump(target: nat) | Malformed

  /** The labels written at `pos` up to the first zero byte, pointer or malformed byte. */
  function Level(p: seq<byte>, pos: nat): (seq<seq<byte>>, End)
    decreases Left(p, pos)
  {
    if pos >= |p| then ([], Malformed)
    else if p[pos] == 0 then ([], Terminated)
    else if p[pos] >= 192 then
      ([], if pos + 1 < |p| then Jump(PointerTarget(p[pos], p[pos + 1])) else Malformed)
    else if p[pos] >= 64 || pos + 1 + p[pos] > |p| then ([], Malformed)
    else
      var (rest, end) := Level(p, pos + 1 + p[pos]);
      ([p[pos + 1..pos + 1 + p[pos]]] + rest, end)
  }

  /** Just past the terminating zero or the first pointer. */
  function NameEnd(p: seq<byte>, pos: nat): nat
    requires !Level(p, pos).1.Malformed?
    decreases Left(p, pos)
  {
    if p[pos] == 0 then pos + 1
    else if p[pos] >= 192 then pos + 2
    else NameEnd(p, pos + 1 + p[pos])
  }

  /** The name at `pos` has these labels and is reached through exactly `jumps` pointers. */
  ghost predicate Resolves(p: seq<byte>, pos: nat, labels: seq<seq<byte>>, jumps: nat)
    decreases jumps
  {
    var (here, end) := Level(p, pos);
    match end
    case Terminated => jumps == 0 && labels == here
    case Jump(target) => jumps > 0 && here <= labels && Resolves(p, target, labels[|here|..], jumps - 1)
    case Malformed => false
  }

  /** The labels joined by dots. */
  function Join(labels: seq<seq<byte>>): seq<byte> {
    if labels == [] then []
    else if |labels| == 1 then labels[0]
    else labels[0] + [DOT] + Join(labels[1..])
  }

  predicate NonEmptyLabels(labels: seq<seq<byte>>) {
    forall i :: 0 <= i < |labels| ==> labels[i] != []
  }

  lemma {:induction false} LevelLabelsNonEmpty(p: seq<byte>, pos: nat)
    ensures NonEmptyLabels(Level(p, pos).0)
    decreases Left(p, pos)
  {
    if pos < |p| && 0 < p[pos] < 64 && pos + 1 + p[pos] <= |p| {
      LevelLabelsNonEmpty(p, pos + 1 + p[pos]);
    }
  }

  lemma JoinEmpty(labels: seq<seq<byte>>)
    requires NonEmptyLabels(labels)
    ensures Join(labels) == [] <==> labels == []
  {
    if |labels| > 0 {
      assert labels[0] != [];
    }
  }

  lemma {:induction false} JoinConcat(a: seq<seq<byte>>, b: seq<seq<byte>>)
    requires NonEmptyLabels(a) && NonEmptyLabels(b)
    ensures Join(a + b) == AddTail(Join(a), Join(b))
  {
    JoinEmpty(a);
    JoinEmpty(b);
    if a == [] {
      assert a + b == b;
    } else {
      assert (a + b)[1..] == a[1..] + b;
      JoinConcat(a[1..], b);
      JoinEmpty(a[1..]);
      if |a| == 1 {
        assert a[1..] + b == b;
      } else {
        var x, y, z := a[0] + [DOT], Join(a[1..]), Join(b);
        assert x + (y + [DOT] + z) == (x + y) + [DOT] + z;
      }
    }
  }

  lemma Associates(a: seq<byte>, b: seq<byte>, c: seq<byte>)
    ensures a + b + c == a + (b + c)
  {
  }

  lemma TailAssociates(name: seq<byte>, word: seq<byte>, tail: seq<byte>)
    requires word != []
    ensures AddTail(AddLabel(name, word), tail) == AddTail(name, AddTail(word, tail))
  {
    if name != [] {
      Associates(name + [DOT], word, tail);
      Associates(name + [DOT], word + [DOT], tail);
      Associates(name + [DOT], word, [DOT]);
    }
  }

  lemma {:induction false} ParseFromByLevel(p: seq<byte>, pos: nat, name: seq<byte>, depth: nat)
    requires depth <= MAX_DEPTH
    ensures var (labels, end) := Level(p, pos);
            && ParseFrom(p, pos, name, depth).0
               == (match end
                   case Malformed => []
                   case Terminated => AddTail(name, Join(labels))
                   case Jump(t) => AddTail(AddTail(name, Join(labels)), Parse(p, t, depth + 1).0))
            && (!end.Malformed? ==> ParseFrom(p, pos, name, depth).1 == NameEnd(p, pos))
    decreases Left(p, pos)
  {
    if pos < |p| && 0 < p[pos] < 64 && pos + 1 + p[pos] <= |p| {
      var word := p[pos + 1..pos + 1 + p[pos]];
      var rest := Level(p, pos + 1 + p[pos]).0;
      ParseFromByLevel(p, pos + 1 + p[pos], AddLabel(name, word), depth);
      LevelLabelsNonEmpty(p, pos + 1 + p[pos]);
      JoinConcat([word], rest);
      TailAssociates(name, word, Join(rest));
    }
  }

  /** One level of parsing, as a whole: a malformed level gives nothing, a terminated one its
      labels, a pointer its labels and then whatever the target gives. */
  lemma ParseByLevel(p: seq<byte>, pos: nat, depth: nat)
    requires depth <= MAX_DEPTH
    ensures var (labels, end) := Level(p, pos);
            && Parse(p, pos, depth).0 == (match end
                                          case Malformed => []
                                          case Terminated => Join(labels)
                                          case Jump(t) => AddTail(Join(labels), Parse(p, t, depth + 1).0))
            && (!end.Malformed? ==> Parse(p, pos, depth).1 == NameEnd(p, pos))
  {
    ParseFromByLevel(p, pos, [], depth);
  }

  /** The parser is right: a name that resolves through at most 16 pointers is returned as its
      labels joined by dots, with the cursor just past its zero byte or first pointer. */
  lemma {:induction false} ParseCorrect(p: seq<byte>, pos: nat, labels: seq<seq<byte>>, jumps: nat, depth: nat)
    requires Resolves(p, pos, labels, jumps) && jumps + depth <= MAX_DEPTH
    ensures Parse(p, pos, depth) == (Join(labels), NameEnd(p, pos))
    ensures NonEmptyLabels(labels)
    decreases jumps
  {
    var (here, end) := Level(p, pos);
    ParseByLevel(p, pos, depth);
    LevelLabelsNonEmpty(p, pos);
    if end.Jump? {
      ParseCorrect(p, end.target, labels[|here|..], jumps - 1, depth + 1);
      JoinConcat(here, labels[|here|..]);
      assert labels == here + labels[|here|..];
    }
  }

  // ---------------------------------------------------------------------------------- encoding

  predicate ValidLabels(labels: seq<seq<byte>>) {
    forall i :: 0 <= i < |labels| ==> 1 <= |labels[i]| <= 63
  }

  function EncodeLabels(labels: seq<seq<byte>>): seq<byte>
    requires ValidLabels(labels)
  {
    if labels == [] then [] else [|labels[0]|] + labels[0] + EncodeLabels(labels[1..])
  }

  function EncodePointer(target: nat): seq<byte>
    requires target < 0x4000
  {
    [192 + target / 256, target % 256]
  }

  /** The bytes `code` stand at `pos`. */
  predicate Holds(p: seq<byte>, pos: nat, code: seq<byte>) {
    pos + |code| <= |p| && p[pos..pos + |code|] == code
  }

  lemma HoldsSplit(p: seq<byte>, pos: nat, a: seq<byte>, b: seq<byte>)
    requires Holds(p, pos, a + b)
    ensures Holds(p, pos, a) && Holds(p, pos + |a|, b)
  {
    var here := p[pos..pos + |a + b|];
    assert p[pos..pos + |a|] == here[..|a|] == a;
    assert p[pos + |a|..pos + |a| + |b|] == here[|a|..] == b;
  }

  lemma ReadLabel(p: seq<byte>, pos: nat, word: seq<byte>, tail: seq<byte>)
    requires 1 <= |word| <= 63 && Holds(p, pos, [|word|] + word + tail)
    ensures var rest := pos + 1 + |word|;
            && Holds(p, rest, tail)
            && Level(p, pos) == ([word] + Level(p, rest).0, Level(p, rest).1)
            && (!Level(p, pos).1.Malformed? ==> NameEnd(p, pos) == NameEnd(p, rest))
  {
    HoldsSplit(p, pos, [|word|] + word, tail);
    HoldsSplit(p, pos, [|word|], word);
    assert p[pos] == p[pos..pos + 1][0];
  }

  /** From `pos` the labels are read and then whatever is read from `rest`. */
  ghost predicate ReadsInto(p: seq<byte>, pos: nat, labels: seq<seq<byte>>, rest: nat) {
    var (more, end) := Level(p, rest);
    && Level(p, pos) == (labels + more, end)
    && (!end.Malformed? ==> NameEnd(p, pos) == NameEnd(p, rest))
  }

  lemma ReadsIntoTrans(p: seq<byte>, pos: nat, a: seq<seq<byte>>, mid: nat, b: seq<seq<byte>>, rest: nat)
    requires ReadsInto(p, pos, a, mid) && ReadsInto(p, mid, b, rest)
    ensures ReadsInto(p, pos, a + b, rest)
  {
    assert a + (b + Level(p, rest).0) == a + b + Level(p, rest).0;
  }

  /** Labels written at `pos` are read back, and then reading goes on after them. */
  lemma {:induction false} LevelOfEncoding(p: seq<byte>, pos: nat, labels: seq<seq<byte>>)
    requires ValidLabels(labels) && Holds(p, pos, EncodeLabels(labels))
    ensures ReadsInto(p, pos, labels, pos + |EncodeLabels(labels)|)
    decreases |labels|
  {
    if labels == [] {
      assert labels + Level(p, pos).0 == Level(p, pos).0;
    } else {
      var mid := pos + 1 + |labels[0]|;
      ReadLabel(p, pos, labels[0], EncodeLabels(labels[1..]));
      LevelOfEncoding(p, mid, labels[1..]);
      ReadsIntoTrans(p, pos, [labels[0]], mid, labels[1..], pos + |EncodeLabels(labels)|);
      assert [labels[0]] + labels[1..] == labels;
    }
  }

  lemma EncodedResolves(before: seq<byte>, labels: seq<seq<byte>>, after: seq<byte>)
    requires ValidLabels(labels)
    ensures Resolves(before + (EncodeLabels(labels) + [0]) + after, |before|, labels, 0)
    ensures NameEnd(before + (EncodeLabels(labels) + [0]) + after, |before|) == |before| + |EncodeLabels(labels)| + 1
  {
    var p := before + (EncodeLabels(labels) + [0]) + after;
    assert Holds(p, |before|, EncodeLabels(labels));
    LevelOfEncoding(p, |before|, labels);
    assert p[|before| + |EncodeLabels(labels)|] == 0;
    assert labels + [] == labels;
  }

  /** Decoding inverts encoding, whatever surrounds the encoded name. */
  lemma DecodeEncoded(before: seq<byte>, labels: seq<seq<byte>>, after: seq<byte>, depth: nat)
    requires ValidLabels(labels) && depth <= MAX_DEPTH
    ensures var code := EncodeLabels(labels) + [0];
            Parse(before + code + after, |before|, depth) == (Join(labels), |before| + |code|)
  {
    EncodedResolves(before, labels, after);
    ParseCorrect(before + (EncodeLabels(labels) + [0]) + after, |before|, labels, 0, depth);
  }

  lemma HoldsMiddle(a: seq<byte>, b: seq<byte>, c: seq<byte>)
    ensures Holds(a + b + c, |a|, b)
  {
  }

  lemma ReadPointer(p: seq<byte>, pos: nat, target: nat)
    requires target < 0x4000 && Holds(p, pos, EncodePointer(target))
    ensures Level(p, pos) == ([], Jump(target)) && NameEnd(p, pos) == pos + 2
  {
    var code := p[pos..pos + 2];
    assert p[pos] == code[0] && p[pos + 1] == code[1];
  }

  /** Labels followed by a pointer are read as those labels and that jump. */
  lemma PointerAfterLabels(before: seq<byte>, labels: seq<seq<byte>>, target: nat, after: seq<byte>)
    requires ValidLabels(labels) && target < 0x4000
    ensures var p := before + (EncodeLabels(labels) + EncodePointer(target)) + after;
            && Level(p, |before|) == (labels, Jump(target))
            && NameEnd(p, |before|) == |before| + |EncodeLabels(labels)| + 2
  {
    var p := before + (EncodeLabels(labels) + EncodePointer(target)) + after;
    HoldsMiddle(before, EncodeLabels(labels) + EncodePointer(target), after);
    HoldsSplit(p, |before|, EncodeLabels(labels), EncodePointer(target));
    LevelOfEncoding(p, |before|, labels);
    ReadPointer(p, |before| + |EncodeLabels(labels)|, target);
    assert labels + [] == labels;
  }

  lemma ResolvesByJump(p: seq<byte>, pos: nat, here: seq<seq<byte>>, target: nat, tail: seq<seq<byte>>, jumps: nat)
    requires Level(p, pos) == (here, Jump(target)) && Resolves(p, target, tail, jumps)
    ensures Resolves(p, pos, here + tail, jumps + 1)
  {
    assert (here + tail)[|here|..] == tail;
  }

  /** The same for a name that ends in a pointer to a name already resolved. */
  lemma DecodeCompressed(before: seq<byte>, labels: seq<seq<byte>>, target: nat, after: seq<byte>,
                         tail: seq<seq<byte>>, jumps: nat)
    requires ValidLabels(labels) && target < 0x4000 && jumps < MAX_DEPTH
    requires Resolves(before + (EncodeLabels(labels) + EncodePointer(target)) + after, target, tail, jumps)
    ensures var code := EncodeLabels(labels) + EncodePointer(target);
            Parse(before + code + after, |before|, 0) == (Join(labels + tail), |before| + |code|)
  {
    var p := before + (EncodeLabels(labels) + EncodePointer(target)) + after;
    PointerAfterLabels(before, labels, target, after);
    ResolvesByJump(p, |before|, labels, target, tail, jumps);
    ParseCorrect(p, |before|, labels + tail, jumps + 1, 0);
  }

  // -------------------------------------------------- malformed names that are not reported as empty

  /** Some place along the pointer chain reads a label and then follows a pointer. */
  predicate LabelBeforePointer(p: seq<byte>, pos: nat, depth: nat)
    decreases MAX_DEPTH + 1 - depth
  {
    depth <= MAX_DEPTH && var (here, end) := Level(p, pos);
    end.Jump? && (here != [] || LabelBeforePointer(p, end.target, depth + 1))
  }

  lemma TerminatedResolves(p: seq<byte>, pos: nat)
    ensures Level(p, pos).1.Terminated? ==> Resolves(p, pos, Level(p, pos).0, 0)
  {
  }

  /** For a name that does not resolve, an empty result is returned if and only if no label
      precedes a pointer on the way: otherwise the labels read before the pointer are kept. */
  lemma {:induction false} MalformedIsEmptyIff(p: seq<byte>, pos: nat, depth: nat)
    requires depth <= MAX_DEPTH + 1
    requires forall labels, jumps: nat :: jumps + depth <= MAX_DEPTH ==> !Resolves(p, pos, labels, jumps)
    ensures Parse(p, pos, depth).0 == [] <==> !LabelBeforePointer(p, pos, depth)
    decreases MAX_DEPTH + 1 - depth
  {
    if depth <= MAX_DEPTH {
      var (here, end) := Level(p, pos);
      ParseByLevel(p, pos, depth);
      LevelLabelsNonEmpty(p, pos);
      JoinEmpty(here);
      TerminatedResolves(p, pos);
      if end.Jump? {
        forall labels, jumps: nat | jumps + (depth + 1) <= MAX_DEPTH ensures !Resolves(p, end.target, labels, jumps) {
          assert (here + labels)[|here|..] == labels;
          assert !Resolves(p, pos, here + labels, jumps + 1);
        }
        MalformedIsEmptyIff(p, end.target, depth + 1);
      }
    }
  }

  // ------------------------------------------------------------------------------- the pointer limit

  /** The labels read along the pointers, following at most `jumps` of them. */
  function LabelsWithin(p: seq<byte>, pos: nat, jumps: nat): seq<seq<byte>>
    decreases jumps
  {
    var (here, end) := Level(p, pos);
    if end.Jump? && jumps > 0 then here + LabelsWithin(p, end.target, jumps - 1) else here
  }

  lemma {:induction false} WithinNonEmpty(p: seq<byte>, pos: nat, jumps: nat)
    ensures NonEmptyLabels(LabelsWithin(p, pos, jumps))
    decreases jumps
  {
    LevelLabelsNonEmpty(p, pos);
    if Level(p, pos).1.Jump? && jumps > 0 {
      WithinNonEmpty(p, Level(p, pos).1.target, jumps - 1);
    }
  }

  lemma {:induction false} ReadsWithin(p: seq<byte>, pos: nat, labels: seq<seq<byte>>, jumps: nat, depth: nat)
    requires Resolves(p, pos, labels, jumps) && depth <= 16
    ensures Parse(p, pos, depth).0 == Join(LabelsWithin(p, pos, 16 - depth))
    decreases jumps
  {
    var (here, end) := Level(p, pos);
    ParseByLevel(p, pos, depth);
    LevelLabelsNonEmpty(p, pos);
    if end.Jump? && depth < 16 {
      ReadsWithin(p, end.target, labels[|here|..], jumps - 1, depth + 1);
      WithinNonEmpty(p, end.target, 16 - depth - 1);
      JoinConcat(here, LabelsWithin(p, end.target, 16 - depth - 1));
    }
  }

  lemma {:induction false} AllWithin(p: seq<byte>, pos: nat, labels: seq<seq<byte>>, jumps: nat, limit: nat)
    requires Resolves(p, pos, labels, jumps) && jumps <= limit
    ensures LabelsWithin(p, pos, limit) == labels
    decreases jumps
  {
    var (here, end) := Level(p, pos);
    if end.Jump? {
      AllWithin(p, end.target, labels[|here|..], jumps - 1, limit - 1);
    }
  }

  /** The limit is sixteen pointers: of a name that resolves, what is read along the first sixteen is
      returned, which is the whole name if it resolves through that many; the cursor stands after its
      zero byte or first pointer either way. */
  lemma SixteenPointers(p: seq<byte>, pos: nat, labels: seq<seq<byte>>, jumps: nat)
    requires Resolves(p, pos, labels, jumps)
    ensures Parse(p, pos, 0) == (Join(LabelsWithin(p, pos, 16)), NameEnd(p, pos))
    ensures jumps <= 16 ==> Parse(p, pos, 0) == (Join(labels), NameEnd(p, pos))
  {
    ReadsWithin(p, pos, labels, jumps, 0);
    ParseByLevel(p, pos, 0);
    if jumps <= 16 {
      AllWithin(p, pos, labels, jumps, 16);
    }
  }

  /** No name is longer than seventeen times the message. */
  lemma SeventeenMessages(p: seq<byte>, pos: nat)
    ensures |Parse(p, pos, 0).0| <= 17 * |p|
  {
    NameBounds(p, pos, 0);
  }

  // ---------------------------------------------------------------------------------- broken names

  /** A length byte of the reserved kinds, 64 to 191, or a label that runs past the end makes the whole
      name empty, whatever labels came before. */
  lemma BrokenNameIsEmpty(before: seq<byte>, labels: seq<seq<byte>>, b: byte, after: seq<byte>, depth: nat)
    requires ValidLabels(labels) && (64 <= b < 192 || (0 < b < 64 && |after| < b)) && depth <= 16
    ensures Parse(before + (EncodeLabels(labels) + [b]) + after, |before|, depth).0 == []
  {
    var p := before + (EncodeLabels(labels) + [b]) + after;
    var q := |before| + |EncodeLabels(labels)|;
    HoldsMiddle(before, EncodeLabels(labels) + [b], after);
    HoldsSplit(p, |before|, EncodeLabels(labels), [b]);
    LevelOfEncoding(p, |before|, labels);
    assert p[q] == p[q..q + 1][0] == b;
    assert Level(p, q).1 == Malformed;
    ParseByLevel(p, |before|, depth);
  }

  /** A name cut before its zero byte is malformed. */
  lemma {:induction false} CutNameMalformed(x: seq<byte>, n: nat, pos: nat, labels: seq<seq<byte>>)
    requires ValidLabels(labels) && Holds(x, pos, EncodeLabels(labels)) && n <= |x| && n <= pos + |EncodeLabels(labels)|
    ensures Level(x[..n], pos).1 == Malformed
    decreases |labels|
  {
    var p := x[..n];
    if pos < n {
      var code := EncodeLabels(labels);
      var next := pos + 1 + |labels[0]|;
      assert code == [|labels[0]|] + labels[0] + EncodeLabels(labels[1..]);
      HoldsSplit(x, pos, [|labels[0]|] + labels[0], EncodeLabels(labels[1..]));
      assert p[pos] == x[pos] == x[pos..pos + |code|][0] == code[0];
      if next <= n {
        CutNameMalformed(x, n, next, labels[1..]);
      }
    }
  }
}
