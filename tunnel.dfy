/**
 * The relay of tunnel.php around the codec: the two per-frame transforms,
 * the two forwarding loops run over the sequence of buffers their socket
 * delivers, and the command-line keyword scanner parse_argv.
 *
 * Socket set-up, sending and receiving are not modelled; a forwarding loop
 * takes the buffers `socket_recv` fills, in order, and returns the buffers
 * handed to `socket_send`, in order.
 */
module Tunnel {
  import opened Gre
  import opened PhpStrings

  datatype Option<T> = None | Some(value: T)

  /** Octets of the outer IPv4 header the remote direction drops (no options assumed). */
  const OUTER_HEADER_LENGTH: nat := 20

  // ---------------------------------------------------------------------------
  // Per-frame transforms.

  /** Local to remote: the frame becomes the payload of a fresh default header. */
  function Encapsulate(frame: seq<byte>): (packet: seq<byte>)
    ensures packet == [0x00, 0x00, 0x08, 0x00] + frame
  {
    var h := NewHeader().(payload := frame);
    assert Pack(h) == Pack(NewHeader()) + frame;
    Pack(h)
  }

  /** substr($buffer, 20): the octets after the outer header, or none when there are not that many. */
  function StripOuterHeader(frame: seq<byte>): (inner: seq<byte>)
    ensures |frame| >= OUTER_HEADER_LENGTH ==> frame == frame[..OUTER_HEADER_LENGTH] + inner
    ensures |frame| < OUTER_HEADER_LENGTH ==> inner == []
  {
    if |frame| < OUTER_HEADER_LENGTH then [] else frame[OUTER_HEADER_LENGTH..]
  }

  /**
   * Remote to local: drop the outer header, decode, forward the payload. A
   * truncated GRE header yields an empty payload, as the offset has then run
   * past the end of the buffer: the payload is what follows the outer
   * header and the GRE header its flags declare, or nothing when the frame
   * is too short for them.
   */
  function Decapsulate(frame: seq<byte>): (payload: seq<byte>)
    ensures var inner := StripOuterHeader(frame);
      if 4 <= |inner| && DeclaredLength(inner) <= |inner|
      then payload == frame[OUTER_HEADER_LENGTH + DeclaredLength(inner)..]
      else payload == []
  {
    match Unpack(StripOuterHeader(frame))
    case Ok(h) => h.payload
    case Err(_) => []
  }

  /** The body of forward_remote_packets for one buffer, decoding with the step-by-step reader. */
  method DecapsulateFrame(frame: seq<byte>) returns (payload: seq<byte>)
    ensures payload == Decapsulate(frame)
  {
    var buffer := StripOuterHeader(frame);
    var header := UnpackHeader(buffer);
    payload := if header.Ok? then header.value.payload else [];
  }

  /** The first 20 octets of a received frame are never inspected. */
  lemma DecapsulateIgnoresOuterHeader(outer: seq<byte>, outer': seq<byte>, rest: seq<byte>)
    requires |outer| == |outer'| == OUTER_HEADER_LENGTH
    ensures Decapsulate(outer + rest) == Decapsulate(outer' + rest)
  {
    assert StripOuterHeader(outer + rest) == rest == StripOuterHeader(outer' + rest);
  }

  /** What one side encapsulates, the other side decapsulates back, whatever outer header it travelled under. */
  lemma DecapsulateEncapsulate(outer: seq<byte>, frame: seq<byte>)
    requires |outer| == OUTER_HEADER_LENGTH
    ensures Decapsulate(outer + Encapsulate(frame)) == frame
  {
    var h := NewHeader().(payload := frame);
    assert StripOuterHeader(outer + Encapsulate(frame)) == Pack(h);
    UnpackPack(h);
  }

  // ---------------------------------------------------------------------------
  // Forwarding loops. Each loop runs while socket_recv returns a non-zero
  // length: it stops at the first empty buffer or when the buffers run out.

  /**
   * The loop both forwarding functions share: while the receive call fills
   * a non-empty buffer, transform it and send the result.
   */
  method Relay(received: seq<seq<byte>>, transform: seq<byte> -> seq<byte>) returns (sent: seq<seq<byte>>)
    ensures |sent| <= |received|
    ensures forall i :: 0 <= i < |sent| ==> received[i] != [] && sent[i] == transform(received[i])
    ensures |sent| < |received| ==> received[|sent|] == []
  {
    sent := [];
    var i := 0;
    while i < |received| && received[i] != []
      invariant i <= |received| && |sent| == i
      invariant forall j :: 0 <= j < i ==> received[j] != [] && sent[j] == transform(received[j])
    {
      sent := sent + [transform(received[i])];
      i := i + 1;
    }
  }

  /** forward_local_packets: each buffer received locally goes out encapsulated, in order. */
  method ForwardLocalPackets(received: seq<seq<byte>>) returns (sent: seq<seq<byte>>)
    ensures |sent| <= |received|
    ensures forall i :: 0 <= i < |sent| ==> received[i] != [] && sent[i] == Encapsulate(received[i])
    ensures |sent| < |received| ==> received[|sent|] == []
  {
    sent := Relay(received, Encapsulate);
  }

  /** forward_remote_packets: each buffer received from the peer goes out decapsulated, in order. */
  method ForwardRemotePackets(received: seq<seq<byte>>) returns (sent: seq<seq<byte>>)
    ensures |sent| <= |received|
    ensures forall i :: 0 <= i < |sent| ==> received[i] != [] && sent[i] == Decapsulate(received[i])
    ensures |sent| < |received| ==> received[|sent|] == []
  {
    sent := Relay(received, Decapsulate);
  }

  // ---------------------------------------------------------------------------
  // parse_argv.

  /** The argument as compared with the keywords: lower-cased, then trimmed. */
  function Normalize(arg: string): string { Trim(ToLower(arg)) }

  predicate IsKeyword(key: string) { key in Keywords() }

  function Keywords(): set<string> { {"remote", "local"} }

  /** What `$argv[++$i]` reads for a keyword at position i: the next argument, or null past the end. */
  function ValueAfter(argv: seq<string>, i: nat): Option<string> {
    if i + 1 < |argv| then Some(argv[i + 1]) else None
  }

  /** argv without its first n arguments (empty when n passes the end). */
  function Drop(argv: seq<string>, n: nat): (rest: seq<string>)
    ensures |rest| == if n <= |argv| then |argv| - n else 0
    ensures forall i :: 0 <= i < |rest| ==> rest[i] == argv[n + i]
  {
    if n <= |argv| then argv[n..] else []
  }

  /**
   * The map parse_argv builds, scanning from the front: a keyword takes the
   * next argument as its value and the scan resumes after that value; any
   * other argument is skipped. Later entries override earlier ones.
   */
  function ParsedArgs(argv: seq<string>): map<string, Option<string>>
    decreases |argv|
  {
    if argv == [] then map[]
    else if IsKeyword(Normalize(argv[0])) then
      map[Normalize(argv[0]) := ValueAfter(argv, 0)] + ParsedArgs(Drop(argv, 2))
    else ParsedArgs(argv[1..])
  }

  /** parse_argv: the for loop whose body advances the index past a keyword's value. */
  method ParseArgv(argv: seq<string>) returns (parsed: map<string, Option<string>>)
    ensures parsed == ParsedArgs(argv)
  {
    parsed := map[];
    var i := 0;
    while i < |argv|
      invariant i <= |argv| + 1
      invariant ParsedArgs(argv) == parsed + ParsedArgs(Drop(argv, i))
    {
      ParsedArgsStep(argv, i, parsed);
      var key := Normalize(argv[i]);
      if IsKeyword(key) {
        i := i + 1;
        parsed := parsed[key := if i < |argv| then Some(argv[i]) else None];
      }
      i := i + 1;
    }
    assert Drop(argv, i) == [];
    assert parsed + map[] == parsed;
  }

  /** One step of the scan at position i, expressed on the map built so far. */
  lemma ParsedArgsStep(argv: seq<string>, i: nat, parsed: map<string, Option<string>>)
    requires i < |argv|
    ensures var key := Normalize(argv[i]);
      if IsKeyword(key)
      then parsed + ParsedArgs(Drop(argv, i)) == parsed[key := ValueAfter(argv, i)] + ParsedArgs(Drop(argv, i + 2))
      else parsed + ParsedArgs(Drop(argv, i)) == parsed + ParsedArgs(Drop(argv, i + 1))
  {
    var rest := Drop(argv, i);
    var key := Normalize(argv[i]);
    assert rest != [] && rest[0] == argv[i];
    ParsedArgsFirst(rest);
    if IsKeyword(key) {
      assert Drop(rest, 2) == Drop(argv, i + 2);
      assert ValueAfter(rest, 0) == ValueAfter(argv, i);
      MapUpdateUnion(parsed, key, ValueAfter(argv, i), ParsedArgs(Drop(argv, i + 2)));
    } else {
      assert Drop(rest, 1) == Drop(argv, i + 1);
    }
  }

  /** ParsedArgs unfolded once, at its first argument. */
  lemma ParsedArgsFirst(argv: seq<string>)
    requires argv != []
    ensures var key := Normalize(argv[0]);
      ParsedArgs(argv) == if IsKeyword(key) then map[key := ValueAfter(argv, 0)] + ParsedArgs(Drop(argv, 2))
                          else ParsedArgs(Drop(argv, 1))
  {
    assert argv[1..] == Drop(argv, 1);
  }

  lemma MapUpdateUnion<K, V>(m: map<K, V>, k: K, v: V, m': map<K, V>)
    ensures m + (map[k := v] + m') == m[k := v] + m'
  {
  }

  /** parse_argv only ever produces the keys "remote" and "local". */
  lemma {:induction false} ParsedKeysAreKeywords(argv: seq<string>)
    ensures ParsedArgs(argv).Keys <= Keywords()
    decreases |argv|
  {
    if argv != [] {
      var first := Normalize(argv[0]);
      if IsKeyword(first) {
        ParsedKeysAreKeywords(Drop(argv, 2));
        assert first in Keywords();
      } else {
        ParsedKeysAreKeywords(argv[1..]);
      }
    }
  }

  /** Every stored value was read right after an argument that normalises to its key. */
  lemma {:induction false} ParsedValueFollowsKeyword(argv: seq<string>, key: string)
    requires key in ParsedArgs(argv)
    ensures exists i :: 0 <= i < |argv| && Normalize(argv[i]) == key && ParsedArgs(argv)[key] == ValueAfter(argv, i)
    decreases |argv|, 1
  {
    var first := Normalize(argv[0]);
    if !IsKeyword(first) {
      assert argv[1..] == Drop(argv, 1);
      ShiftedWitness(argv, 1, key);
    } else if key in ParsedArgs(Drop(argv, 2)) {
      ShiftedWitness(argv, 2, key);
    } else {
      assert first == key && ParsedArgs(argv)[key] == ValueAfter(argv, 0);
    }
  }

  /** The witness for a suffix of argv, moved back into argv's own positions. */
  lemma {:induction false} ShiftedWitness(argv: seq<string>, n: nat, key: string)
    requires 1 <= n <= 2 && argv != []
    requires key in ParsedArgs(Drop(argv, n)) && key in ParsedArgs(argv)
    requires ParsedArgs(argv)[key] == ParsedArgs(Drop(argv, n))[key]
    ensures exists i :: 0 <= i < |argv| && Normalize(argv[i]) == key && ParsedArgs(argv)[key] == ValueAfter(argv, i)
    decreases |argv|, 0
  {
    var rest := Drop(argv, n);
    ParsedValueFollowsKeyword(rest, key);
    var j :| 0 <= j < |rest| && Normalize(rest[j]) == key && ParsedArgs(rest)[key] == ValueAfter(rest, j);
    assert rest[j] == argv[n + j];
    assert ValueAfter(rest, j) == ValueAfter(argv, n + j);
  }

  lemma MapUnionAssociative<K, V>(a: map<K, V>, b: map<K, V>, c: map<K, V>)
    ensures a + (b + c) == (a + b) + c
  {
  }

  /** The scan of argv finishes inside argv: no keyword is its last argument. */
  predicate ScanEndsInside(argv: seq<string>)
    decreases |argv|
  {
    if argv == [] then true
    else if IsKeyword(Normalize(argv[0])) then |argv| >= 2 && ScanEndsInside(Drop(argv, 2))
    else ScanEndsInside(Drop(argv, 1))
  }

  /**
   * Scanning front then back is scanning front + back, with back's entries
   * overriding front's: a later occurrence of a keyword overwrites an earlier one.
   */
  lemma {:induction false} ParsedArgsAppend(front: seq<string>, back: seq<string>)
    requires ScanEndsInside(front)
    ensures ParsedArgs(front + back) == ParsedArgs(front) + ParsedArgs(back)
    decreases |front|
  {
    if front == [] {
      assert front + back == back;
    } else {
      var key := Normalize(front[0]);
      var n := if IsKeyword(key) then 2 else 1;
      assert ScanEndsInside(Drop(front, n));
      ParsedArgsAppend(Drop(front, n), back);
      AppendStep(front, back);
      ParsedArgsFirst(front);
      if IsKeyword(key) {
        MapUnionAssociative(map[key := ValueAfter(front, 0)], ParsedArgs(Drop(front, 2)), ParsedArgs(back));
      }
    }
  }

  /** ParsedArgs of front + back unfolded at the first argument, which front supplies. */
  lemma AppendStep(front: seq<string>, back: seq<string>)
    requires front != [] && ScanEndsInside(front)
    ensures IsKeyword(Normalize(front[0])) ==>
      ParsedArgs(front + back) == map[Normalize(front[0]) := ValueAfter(front, 0)] + ParsedArgs(Drop(front, 2) + back)
    ensures !IsKeyword(Normalize(front[0])) ==>
      ParsedArgs(front + back) == ParsedArgs(Drop(front, 1) + back)
  {
    var all := front + back;
    var n := if IsKeyword(Normalize(front[0])) then 2 else 1;
    assert all[0] == front[0];
    assert Drop(all, n) == Drop(front, n) + back by {
      DropAppend(front, back, n);
    }
    assert n == 2 ==> ValueAfter(all, 0) == ValueAfter(front, 0) by {
      if n == 2 {
        assert |front| >= 2 && all[1] == front[1];
      }
    }
    ParsedArgsFirst(all);
  }

  lemma DropAppend(front: seq<string>, back: seq<string>, n: nat)
    requires n <= |front|
    ensures Drop(front + back, n) == Drop(front, n) + back
  {
    assert (front + back)[n..] == front[n..] + back;
  }

  /** Whatever came before, a keyword followed by a value as the last two arguments decides that key. */
  lemma LastOccurrenceWins(front: seq<string>, keyword: string, value: string)
    requires ScanEndsInside(front) && IsKeyword(Normalize(keyword))
    ensures Normalize(keyword) in ParsedArgs(front + [keyword, value])
    ensures ParsedArgs(front + [keyword, value])[Normalize(keyword)] == Some(value)
  {
    ParsedArgsAppend(front, [keyword, value]);
    ParsedArgsFirst([keyword, value]);
    assert Drop([keyword, value], 2) == [];
  }

  /**
   * The argument after a keyword is taken as its value and never tested as a
   * keyword itself: it adds no key, whatever it says.
   */
  lemma KeywordValueIsNotScanned(keyword: string, value: string, rest: seq<string>)
    requires IsKeyword(Normalize(keyword))
    ensures ParsedArgs([keyword, value] + rest).Keys == {Normalize(keyword)} + ParsedArgs(rest).Keys
    ensures ParsedArgs([keyword, value] + rest)[Normalize(keyword)] ==
              if Normalize(keyword) in ParsedArgs(rest) then ParsedArgs(rest)[Normalize(keyword)] else Some(value)
  {
    var all := [keyword, value] + rest;
    ParsedArgsFirst(all);
    assert Drop(all, 2) == rest;
  }

  /** A null value (None) can only come from a keyword that is the last argument. */
  lemma {:induction false} ValuesPresentWhenScanEndsInside(argv: seq<string>)
    requires ScanEndsInside(argv)
    ensures forall key :: key in ParsedArgs(argv) ==> ParsedArgs(argv)[key].Some?
    decreases |argv|
  {
    if argv != [] {
      ParsedArgsFirst(argv);
      if IsKeyword(Normalize(argv[0])) {
        ValuesPresentWhenScanEndsInside(Drop(argv, 2));
      } else {
        ValuesPresentWhenScanEndsInside(Drop(argv, 1));
      }
    }
  }

  /**
   * Keywords match after lower-casing and trimming: a command line naming
   * each keyword in a different spelling, with `remote` given twice, keeps
   * the second value.
   *
   * The lemmas after this one each take one step of this example: one
   * argument normalised or one position of the scan unfolded. Each unfolding
   * of the scan over a literal argument list is costly for the solver, so
   * the steps are kept apart.
   */
  lemma ParseArgvExample()
    ensures ParsedArgs(["tunnel.php", " Local", "/tmp/gre.sock", "REMOTE\n", "10.0.0.1", "remote", "10.0.0.2"])
         == map["local" := Some("/tmp/gre.sock"), "remote" := Some("10.0.0.2")]
  {
    var front := ["tunnel.php", " Local", "/tmp/gre.sock", "REMOTE\n", "10.0.0.1"];
    var tail := ["remote", "10.0.0.2"];
    assert front + tail == ["tunnel.php", " Local", "/tmp/gre.sock", "REMOTE\n", "10.0.0.1", "remote", "10.0.0.2"];
    assert ParsedArgs(front + tail) == ParsedArgs(front) + ParsedArgs(tail) by {
      FrontScanExample();
      ParsedArgsAppend(front, tail);
    }
    ParsedFrontExample();
    ParsedTailExample();
    OverrideExample();
  }

  lemma OverrideExample()
    ensures map["local" := Some("/tmp/gre.sock"), "remote" := Some("10.0.0.1")] + map["remote" := Some("10.0.0.2")]
         == map["local" := Some("/tmp/gre.sock"), "remote" := Some("10.0.0.2")]
  {
    assert "local" != "remote" by { assert |"local"| != |"remote"|; }
  }

  lemma FrontScanExample()
    ensures ScanEndsInside(["tunnel.php", " Local", "/tmp/gre.sock", "REMOTE\n", "10.0.0.1"])
  {
    var argv := ["tunnel.php", " Local", "/tmp/gre.sock", "REMOTE\n", "10.0.0.1"];
    var second := [" Local", "/tmp/gre.sock", "REMOTE\n", "10.0.0.1"];
    var rest := ["REMOTE\n", "10.0.0.1"];
    ScriptNameIsNotKeyword();
    NormalizeLocalExample();
    NormalizeRemoteExamples();
    assert Drop(argv, 1) == second;
    assert Drop(second, 2) == rest;
    assert Drop(rest, 2) == [];
  }

  lemma ParsedFrontExample()
    ensures ParsedArgs(["tunnel.php", " Local", "/tmp/gre.sock", "REMOTE\n", "10.0.0.1"])
         == map["local" := Some("/tmp/gre.sock"), "remote" := Some("10.0.0.1")]
  {
    var argv := ["tunnel.php", " Local", "/tmp/gre.sock", "REMOTE\n", "10.0.0.1"];
    var second := [" Local", "/tmp/gre.sock", "REMOTE\n", "10.0.0.1"];
    ScriptNameIsNotKeyword();
    ParsedArgsFirst(argv);
    assert Drop(argv, 1) == second;
    ParsedLocalExample();
  }

  lemma ParsedLocalExample()
    ensures ParsedArgs([" Local", "/tmp/gre.sock", "REMOTE\n", "10.0.0.1"])
         == map["local" := Some("/tmp/gre.sock"), "remote" := Some("10.0.0.1")]
  {
    var argv := [" Local", "/tmp/gre.sock", "REMOTE\n", "10.0.0.1"];
    var rest := ["REMOTE\n", "10.0.0.1"];
    NormalizeLocalExample();
    ParsedArgsFirst(argv);
    assert Drop(argv, 2) == rest;
    NormalizeRemoteExamples();
    ParsedArgsFirst(rest);
    assert Drop(rest, 2) == [];
  }

  lemma ParsedTailExample()
    ensures ParsedArgs(["remote", "10.0.0.2"]) == map["remote" := Some("10.0.0.2")]
  {
    var argv := ["remote", "10.0.0.2"];
    NormalizeRemoteExamples();
    ParsedArgsFirst(argv);
    assert Drop(argv, 2) == [];
  }

  lemma ScriptNameIsNotKeyword()
    ensures !IsKeyword(Normalize("tunnel.php"))
  {
    assert ToLower("tunnel.php") == "tunnel.php";
    TrimExample("tunnel.php", 0, 10);
  }

  lemma NormalizeLocalExample()
    ensures Normalize(" Local") == "local"
  {
    assert ToLower(" Local") == " local";
    TrimExample(" local", 1, 6);
  }

  lemma NormalizeRemoteExamples()
    ensures Normalize("REMOTE\n") == "remote"
    ensures Normalize("remote") == "remote"
  {
    assert ToLower("REMOTE\n") == "remote\n";
    TrimExample("remote\n", 0, 6);
    assert ToLower("remote") == "remote";
    TrimExample("remote", 0, 6);
  }

  /** trim keeps s[lo..hi] when exactly the characters outside it are trimmed ones. */
  lemma TrimExample(s: string, lo: nat, hi: nat)
    requires lo < hi <= |s|
    requires forall i :: 0 <= i < lo ==> IsTrimmed(s[i])
    requires forall i :: hi <= i < |s| ==> IsTrimmed(s[i])
    requires !IsTrimmed(s[lo]) && !IsTrimmed(s[hi - 1])
    ensures Trim(s) == s[lo..hi]
  {
  }
}
