/** DNS names: the compressing encoder and the parser of libevent/evdns.c
    (sections 3.1 and 4.1.4 of RFC 1035). */
module DnsName {
  import opened Bytes

  const DOT: byte := 46
  const MAX_LABELS: nat := 128
  const MAX_OFFSET: nat := 0x4000   // a compression pointer has 14 bits

  // ----- dotted names -----

  /** The place of the first dot, or |s|. */
  function DotAt(s: seq<byte>): (d: nat)
    ensures d <= |s| && DOT !in s[..d] && (d < |s| ==> s[d] == DOT)
  {
    if s == [] || s[0] == DOT then 0 else 1 + DotAt(s[1..])
  }

  /** The labels that a resolver sees: those up to the first empty one. */
  function Meaning(s: seq<byte>): (ls: seq<seq<byte>>)
    decreases |s|
  {
    var d := DotAt(s);
    if d == 0 then [] else if d == |s| then [s] else [s[..d]] + Meaning(s[d + 1..])
  }

  /** No label is empty, except perhaps the last. */
  predicate Clean(s: seq<byte>)
    decreases |s|
  {
    var d := DotAt(s);
    d == |s| || (d > 0 && Clean(s[d + 1..]))
  }

  function Join(ls: seq<seq<byte>>): seq<byte> {
    if ls == [] then [] else if |ls| == 1 then ls[0] else ls[0] + [DOT] + Join(ls[1..])
  }

  /** Without one dot at the end. */
  function Stripped(s: seq<byte>): seq<byte> {
    if s != [] && s[|s| - 1] == DOT then s[..|s| - 1] else s
  }

  lemma {:induction false} MeaningLength(s: seq<byte>)
    ensures |Join(Meaning(s))| <= |s|
    decreases |s|
  {
    var d := DotAt(s);
    if 0 < d < |s| {
      MeaningLength(s[d + 1..]);
      assert Meaning(s)[1..] == Meaning(s[d + 1..]);
    }
  }

  lemma JoinStep(lab: seq<byte>, ls: seq<seq<byte>>)
    ensures Join([lab] + ls) == if ls == [] then lab else lab + [DOT] + Join(ls)
  {
    assert ([lab] + ls)[1..] == ls;
  }

  lemma StrippedStep(lab: seq<byte>, t: seq<byte>)
    ensures Stripped(lab + [DOT] + t) == if t == [] then lab else lab + [DOT] + Stripped(t)
  {
    var s := lab + [DOT] + t;
    if t != [] {
      assert s[|s| - 1] == t[|t| - 1];
      assert s[..|s| - 1] == lab + [DOT] + t[..|t| - 1];
    }
  }

  /** The labels spell the name, up to a dot at the end, exactly when no other
      label is empty (or the name is the lone dot). */
  lemma {:induction false} MeaningIsName(s: seq<byte>)
    ensures Join(Meaning(s)) == Stripped(s) <==> Clean(s) || s == [DOT]
    decreases |s|
  {
    var d := DotAt(s);
    if d == |s| {
      assert s == [] || s[|s| - 1] in s[..d];
    } else if d == 0 {
      assert |Stripped(s)| >= |s| - 1;
    } else {
      hide Join, Stripped;
      var t := s[d + 1..];
      assert s == s[..d] + [DOT] + t;
      JoinStep(s[..d], Meaning(t));
      StrippedStep(s[..d], t);
      MeaningIsName(t);
      CutEqual(s[..d] + [DOT], Join(Meaning(t)), Stripped(t));
    }
  }

  /** The name "a..b" comes back as "a". */
  lemma EmptyLabelCuts()
    ensures Join(Meaning([97, DOT, DOT, 98])) == [97]
  {
    var s: seq<byte> := [97, DOT, DOT, 98];
    assert DotAt(s) == 1;
    assert s[2..] == [DOT, 98] && DotAt(s[2..]) == 0;
  }

  lemma CutEqual(a: seq<byte>, b: seq<byte>, c: seq<byte>)
    ensures a + b == a + c <==> b == c
  {
    assert (a + b)[|a|..] == b && (a + c)[|a|..] == c;
  }
}
