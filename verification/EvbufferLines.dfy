/** Line ends of every style, and evbuffer_readln. */
module EvbufferLines {
  import opened Prelude
  import opened Bytes
  import opened Evbuffer
  import opened EvbufferSearch

  datatype EolStyle = EolAny | EolCrlf | EolCrlfStrict | EolLf

  predicate IsEol(b: byte) {
    b == CR || b == LF
  }

  /** A terminator of the style starts at `p`. */
  predicate StopAt(text: seq<byte>, style: EolStyle, p: nat)
    requires p < |text|
  {
    var crlf := text[p] == CR && p + 1 < |text| && text[p + 1] == LF;
    match style
    case EolAny => IsEol(text[p])
    case EolLf => text[p] == LF
    case EolCrlfStrict => crlf
    case EolCrlf => text[p] == LF || crlf
  }

  /** `n` is the length of the terminator that starts at `p`. */
  predicate StopLen(text: seq<byte>, style: EolStyle, p: nat, n: nat) {
    && p + n <= |text| && 0 < n
    && match style
       case EolAny => (forall i :: p <= i < p + n ==> IsEol(text[i])) && (p + n < |text| ==> !IsEol(text[p + n]))
       case EolLf => n == 1
       case EolCrlfStrict => n == 2
       case EolCrlf => n == if text[p] == LF then 1 else 2
  }

  /** find_eol_char: the first CR or LF in data[from..], or |data|; scanned in
      pieces of CHUNK_SZ bytes. */
  method FindEolChar(data: seq<byte>, from: nat) returns (j: nat)
    requires from <= |data|
    ensures from <= j <= |data| && (j < |data| ==> IsEol(data[j]))
    ensures forall i :: from <= i < j ==> !IsEol(data[i])
  {
    var s := from;
    while s < |data|
      invariant from <= s && forall i :: from <= i < s && i < |data| ==> !IsEol(data[i])
    {
      var limit := if s + CHUNK_SZ < |data| then s + CHUNK_SZ else |data|;
      var chunk := data[..limit];
      var cr := MemChr(chunk, s, CR);
      var lf := MemChr(chunk, s, LF);
      assert forall i :: s <= i < cr ==> data[i] == chunk[s..cr][i - s];
      assert forall i :: s <= i < lf ==> data[i] == chunk[s..lf][i - s];
      if cr < limit {
        if lf < limit && lf < cr { return lf; }
        return cr;
      } else if lf < limit {
        return lf;
      }
      s := s + CHUNK_SZ;
    }
    return |data|;
  }

  predicate Wanted(anyEol: bool, b: byte) {
    if anyEol then IsEol(b) else b == LF
  }

  /** What a chain says about the bytes of the whole. */
  lemma ChainBytes(cs: seq<Chain>, r: Ptr, j: nat, anyEol: bool)
    requires OnChain(cs, r) && r.inChain <= j <= cs[r.chain].off
    requires forall i :: r.inChain <= i < j ==> !Wanted(anyEol, Data(cs[r.chain])[i])
    ensures r.pos + j - r.inChain <= |Flat(cs)|
    ensures forall p :: r.pos <= p < r.pos + j - r.inChain ==> !Wanted(anyEol, Flat(cs)[p])
    ensures j < cs[r.chain].off ==>
      r.pos + j - r.inChain < |Flat(cs)| && Flat(cs)[r.pos + j - r.inChain] == Data(cs[r.chain])[j]
  {
    hide Flat, Data;
    var n := cs[r.chain].off - r.inChain;
    Piece(cs, r, n);
    forall p | r.pos <= p < r.pos + n
      ensures Flat(cs)[p] == Data(cs[r.chain])[p - r.pos + r.inChain]
    {
      assert Flat(cs)[p] == Flat(cs)[r.pos..r.pos + n][p - r.pos];
    }
  }

  /** evbuffer_find_eol_char (`anyEol`), and evbuffer_strchr for LF. */
  method ScanFor(buf: Buffer, it: Ptr, anyEol: bool) returns (found: bool, r: Ptr)
    requires buf.Valid() && (OnChain(buf.chains, it) || (buf.chains == [] && it == Ptr(0, 0, 0)))
    ensures 0 <= it.pos <= |buf.Contents()|
    ensures found ==>
      && OnChain(buf.chains, r) && r.inChain < buf.chains[r.chain].off
      && it.pos <= r.pos < |buf.Contents()| && Wanted(anyEol, buf.Contents()[r.pos])
      && forall p :: it.pos <= p < r.pos ==> !Wanted(anyEol, buf.Contents()[p])
    ensures !found ==> forall p :: it.pos <= p < |buf.Contents()| ==> !Wanted(anyEol, buf.Contents()[p])
  {
    hide Flat, Data, Wanted;
    var cs := buf.chains;
    ghost var text := Flat(cs);
    r := it;
    FlatStart(cs);
    if cs != [] { Rest(cs, it); }
    while r.chain < |cs|
      invariant r.chain < |cs| ==> OnChain(cs, r)
      invariant r.chain >= |cs| ==> r.pos == |text|
      invariant it.pos <= r.pos <= |text| && forall p :: it.pos <= p < r.pos ==> !Wanted(anyEol, text[p])
      decreases |cs| - r.chain
    {
      var j := ScanChain(Data(cs[r.chain]), r.inChain, anyEol);
      ChainBytes(cs, r, j, anyEol);
      Advance(cs, r, j);
      if j < cs[r.chain].off {
        return true, r.(pos := r.pos + j - r.inChain, inChain := j);
      }
      r := Ptr(r.pos + j - r.inChain, r.chain + 1, 0);
    }
    return false, r;
  }

  method ScanChain(data: seq<byte>, from: nat, anyEol: bool) returns (j: nat)
    requires from <= |data|
    ensures from <= j <= |data| && (j < |data| ==> Wanted(anyEol, data[j]))
    ensures forall i :: from <= i < j ==> !Wanted(anyEol, data[i])
  {
    if anyEol {
      j := FindEolChar(data, from);
    } else {
      j := MemChr(data, from, LF);
      assert forall i :: from <= i < j ==> data[i] == data[from..j][i - from];
    }
  }

  /** One byte of a chain, as a byte of the whole. */
  lemma ByteAt(cs: seq<Chain>, at: Ptr, i: nat)
    requires OnChain(cs, at) && at.inChain <= i < cs[at.chain].off
    ensures at.pos + i - at.inChain < |Flat(cs)| && Flat(cs)[at.pos + i - at.inChain] == Data(cs[at.chain])[i]
  {
    hide Flat, Data;
    var n := i + 1 - at.inChain;
    Piece(cs, at, n);
    assert Flat(cs)[at.pos..at.pos + n][n - 1] == Data(cs[at.chain])[at.inChain..at.inChain + n][n - 1];
  }

  /** evbuffer_strspn for "\r\n": the length of the run of CR and LF bytes. */
  method StrSpn(buf: Buffer, ptr: Ptr) returns (count: nat)
    requires buf.Valid() && OnChain(buf.chains, ptr)
    ensures ptr.pos + count <= |buf.Contents()|
    ensures forall p :: ptr.pos <= p < ptr.pos + count ==> IsEol(buf.Contents()[p])
    ensures ptr.pos + count < |buf.Contents()| ==> !IsEol(buf.Contents()[ptr.pos + count])
  {
    hide Flat, Data, IsEol;
    var cs := buf.chains;
    ghost var text := Flat(cs);
    var at := ptr;
    count := 0;
    Rest(cs, ptr);
    while true
      invariant OnChain(cs, at) && at.pos == ptr.pos + count <= |text|
      invariant forall p :: ptr.pos <= p < ptr.pos + count ==> IsEol(text[p])
      decreases |cs| - at.chain
    {
      var i := at.inChain;
      while i < cs[at.chain].off && IsEol(Data(cs[at.chain])[i])
        invariant at.inChain <= i <= cs[at.chain].off
        invariant forall p :: ptr.pos <= p < at.pos + i - at.inChain && p < |text| ==> IsEol(text[p])
      {
        ByteAt(cs, at, i);
        i := i + 1;
      }
      count := count + i - at.inChain;
      Advance(cs, at, i);
      if i < cs[at.chain].off {
        ByteAt(cs, at, i);
        return;
      }
      Rest(cs, at);
      if at.chain + 1 == |cs| {
        return;
      }
      at := Ptr(at.pos + i - at.inChain, at.chain + 1, 0);
    }
  }

  /** No terminator starts in text[from..to]. */
  ghost predicate NoStop(text: seq<byte>, style: EolStyle, from: int, to: int) {
    forall p :: 0 <= from <= p < to && p < |text| ==> !StopAt(text, style, p)
  }

  lemma StrictIsOccurrence(text: seq<byte>, p: nat)
    requires p < |text|
    ensures OccursAt(text, [CR, LF], p) <==> StopAt(text, EolCrlfStrict, p)
  {
    if p + 2 <= |text| {
      assert text[p..p + 2] == [text[p], text[p + 1]];
    }
  }

  lemma StrictNoStop(text: seq<byte>, from: int, to: int)
    requires forall p :: from <= p < to ==> !Hit(text, [CR, LF], None, p)
    ensures NoStop(text, EolCrlfStrict, from, to)
  {
    forall p: nat | 0 <= from <= p < to && p < |text|
      ensures !StopAt(text, EolCrlfStrict, p)
    {
      StrictIsOccurrence(text, p);
      assert !Hit(text, [CR, LF], None, p);
    }
  }

  /** The EOL_CRLF case of evbuffer_search_eol. */
  method SearchCrlf(buf: Buffer, start: Ptr) returns (found: bool, it: Ptr, n: nat)
    requires buf.Valid() && (OnChain(buf.chains, start) || (buf.chains == [] && start == Ptr(0, 0, 0)))
    ensures found ==>
      && OnChain(buf.chains, it) && it.inChain < buf.chains[it.chain].off
      && start.pos <= it.pos < |buf.Contents()| && StopAt(buf.Contents(), EolCrlf, it.pos)
      && StopLen(buf.Contents(), EolCrlf, it.pos, n)
    ensures NoStop(buf.Contents(), EolCrlf, start.pos, if found then it.pos else |buf.Contents()|)
  {
    hide Flat, Data;
    it, n := start, 0;
    ghost var text := buf.Contents();
    while true
      invariant OnChain(buf.chains, it) || (buf.chains == [] && it == Ptr(0, 0, 0))
      invariant 0 <= start.pos <= it.pos && NoStop(text, EolCrlf, start.pos, it.pos)
      decreases |text| - it.pos
    {
      found, it := ScanFor(buf, it, true);
      if !found { return; }
      Piece(buf.chains, it, 1);
      StrictIsOccurrence(text, it.pos);
      if Data(buf.chains[it.chain])[it.inChain] == LF {
        return true, it, 1;
      }
      var crlf := PtrMemcmp(buf, it, [CR, LF]);
      if crlf {
        return true, it, 2;
      }
      var ok, next := PtrSet(buf, it, 1, ADD);
      if !ok { return false, it, 0; }
      it := next;
    }
  }

  /** The EOL_CRLF_STRICT case. */
  method SearchStrict(buf: Buffer, start: Ptr) returns (found: bool, it: Ptr)
    requires buf.Valid() && (OnChain(buf.chains, start) || (buf.chains == [] && start == Ptr(0, 0, 0)))
    ensures found ==>
      && OnChain(buf.chains, it) && it.inChain < buf.chains[it.chain].off
      && start.pos <= it.pos < |buf.Contents()| && StopAt(buf.Contents(), EolCrlfStrict, it.pos)
      && StopLen(buf.Contents(), EolCrlfStrict, it.pos, 2)
    ensures NoStop(buf.Contents(), EolCrlfStrict, start.pos, if found then it.pos else |buf.Contents()|)
  {
    hide Flat, Data;
    it := SearchRange(buf, [CR, LF], if buf.chains == [] then None else Some(start), None);
    found := it.pos >= 0;
    if found { StrictIsOccurrence(buf.Contents(), it.pos); }
    StrictNoStop(buf.Contents(), start.pos, if found then it.pos else |buf.Contents()|);
  }

  /** The EOL_ANY case. */
  method SearchAny(buf: Buffer, start: Ptr) returns (found: bool, it: Ptr, n: nat)
    requires buf.Valid() && (OnChain(buf.chains, start) || (buf.chains == [] && start == Ptr(0, 0, 0)))
    ensures found ==>
      && OnChain(buf.chains, it) && it.inChain < buf.chains[it.chain].off
      && start.pos <= it.pos < |buf.Contents()| && StopAt(buf.Contents(), EolAny, it.pos)
      && StopLen(buf.Contents(), EolAny, it.pos, n)
    ensures NoStop(buf.Contents(), EolAny, start.pos, if found then it.pos else |buf.Contents()|)
  {
    hide Flat, Data;
    n := 0;
    found, it := ScanFor(buf, start, true);
    if found { n := StrSpn(buf, it); }
  }

  /** The EOL_LF case. */
  method SearchLf(buf: Buffer, start: Ptr) returns (found: bool, it: Ptr)
    requires buf.Valid() && (OnChain(buf.chains, start) || (buf.chains == [] && start == Ptr(0, 0, 0)))
    ensures found ==>
      && OnChain(buf.chains, it) && it.inChain < buf.chains[it.chain].off
      && start.pos <= it.pos < |buf.Contents()| && StopAt(buf.Contents(), EolLf, it.pos)
      && StopLen(buf.Contents(), EolLf, it.pos, 1)
    ensures NoStop(buf.Contents(), EolLf, start.pos, if found then it.pos else |buf.Contents()|)
  {
    hide Flat, Data;
    found, it := ScanFor(buf, start, false);
  }

  /** evbuffer_search_eol: the first terminator of the style and its length. */
  method SearchEol(buf: Buffer, start: Option<Ptr>, style: EolStyle) returns (it: Ptr, n: nat)
    requires buf.Valid() && (start.Some? ==> OnChain(buf.chains, start.value))
    ensures var from := if start.Some? then start.value.pos else 0;
      if it.pos == -1 then NoStop(buf.Contents(), style, from, |buf.Contents()|)
      else
        && OnChain(buf.chains, it) && it.inChain < buf.chains[it.chain].off
        && from <= it.pos < |buf.Contents()| && StopAt(buf.Contents(), style, it.pos)
        && StopLen(buf.Contents(), style, it.pos, n)
        && NoStop(buf.Contents(), style, from, it.pos)
  {
    hide Flat, Data, StopAt, StopLen, NoStop;
    var found;
    it, n := if start.Some? then start.value else Ptr(0, 0, 0), 0;
    FlatStart(buf.chains);
    match style {
      case EolAny =>
        found, it, n := SearchAny(buf, it);
      case EolCrlfStrict =>
        found, it := SearchStrict(buf, it);
        n := 2;
      case EolCrlf =>
        found, it, n := SearchCrlf(buf, it);
      case EolLf =>
        found, it := SearchLf(buf, it);
        n := 1;
    }
    if !found {
      it := Ptr(-1, it.chain, it.inChain);
    }
  }

  lemma ThreeParts(text: seq<byte>, p: nat, n: nat)
    requires p + n <= |text|
    ensures text == text[..p] + text[p..p + n] + text[p..][n..]
  {
    assert text[p..][n..] == text[p + n..];
  }

  /** evbuffer_readln: the line before the first terminator; line, terminator and
      what is left make up the old contents. */
  method Readln(buf: Buffer, style: EolStyle) returns (line: Option<seq<byte>>)
    requires buf.Valid()
    modifies buf
    ensures buf.Valid()
    ensures line.None? ==>
      && buf.chains == old(buf.chains)
      && (old(buf.freezeStart) || NoStop(old(buf.Contents()), style, 0, old(|buf.Contents()|)))
    ensures line.Some? ==> exists n: nat ::
      var text, p := old(buf.Contents()), |line.value|;
      && p < |text| && StopAt(text, style, p) && StopLen(text, style, p, n) && NoStop(text, style, 0, p)
      && text == line.value + text[p..p + n] + buf.Contents()
    ensures old(Tight(buf.chains, buf.lastWithDatap)) ==> Tight(buf.chains, buf.lastWithDatap)
    ensures old(Packed(buf.chains)) ==> Packed(buf.chains)
  {
    hide Flat, StopAt, NoStop;
    if buf.freezeStart { return None; }
    var it, n := SearchEol(buf, None, style);
    if it.pos < 0 { return None; }
    ghost var text := buf.Contents();
    var _, copied := buf.Remove(it.pos);
    var _ := buf.Drain(n);
    ThreeParts(text, it.pos, n);
    return Some(copied);
  }
}
