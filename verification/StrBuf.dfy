/**
 The growable string and its %-substitution (src/str.c). Memory does not run out.
 */
module StrBuf {
  import opened Wrappers

  const MIN_CHUNK: nat := 64
  const PERCENT: byte := 37

  function Max(a: nat, b: nat): (r: nat) {
    if a > b then a else b
  }

  // ---- What substitution means ----

  /** A pattern and what stands for it; none if the function that makes it fails. */
  datatype Rule = Rule(pattern: seq<byte>, value: Option<seq<byte>>)

  predicate StartsWith(text: seq<byte>, pattern: seq<byte>) {
    |pattern| <= |text| && text[..|pattern|] == pattern
  }

  /** The rule matches and none before it in the table does. */
  predicate IsFirstMatch(tab: seq<Rule>, text: seq<byte>, u: Rule) {
    exists i :: 0 <= i < |tab| && tab[i] == u && StartsWith(text, u.pattern) && NoneBefore(tab, text, i)
  }

  predicate NoneBefore(tab: seq<Rule>, text: seq<byte>, i: nat) {
    forall j :: 0 <= j < i && j < |tab| ==> !StartsWith(text, tab[j].pattern)
  }

  lemma FirstMatchLater(tab: seq<Rule>, text: seq<byte>, u: Rule)
    requires tab != [] && !StartsWith(text, tab[0].pattern) && IsFirstMatch(tab[1..], text, u)
    ensures IsFirstMatch(tab, text, u)
  {
    hide StartsWith;
    var i :| 0 <= i < |tab[1..]| && tab[1..][i] == u && StartsWith(text, u.pattern) && NoneBefore(tab[1..], text, i);
    assert tab[i + 1] == u;
    forall j | 0 <= j < i + 1
      ensures !StartsWith(text, tab[j].pattern)
    {
      assert j > 0 ==> tab[1..][j - 1] == tab[j];
    }
    assert NoneBefore(tab, text, i + 1);
  }

  /** The first rule whose pattern the text starts with. */
  function FirstMatch(tab: seq<Rule>, text: seq<byte>): (r: Option<Rule>)
    ensures r.Some? ==> r.value in tab && StartsWith(text, r.value.pattern)
    ensures r.Some? ==> IsFirstMatch(tab, text, r.value)
    ensures r.None? <==> forall u :: u in tab ==> !StartsWith(text, u.pattern)
  {
    if tab == [] then None
    else if StartsWith(text, tab[0].pattern) then
      assert NoneBefore(tab, text, 0);
      Some(tab[0])
    else
      var r := FirstMatch(tab[1..], text);
      assert r.Some? ==> IsFirstMatch(tab, text, r.value) by { if r.Some? { FirstMatchLater(tab, text, r.value); } }
      r
  }

  /** Patterns are not empty. */
  predicate TableOk(tab: seq<Rule>) {
    tab != [] && forall u :: u in tab ==> u.pattern != []
  }

  /** No replacement brings in another % sign. */
  predicate Flat(tab: seq<Rule>) {
    forall u :: u in tab && u.value.Some? ==> PERCENT !in u.value.value
  }

  /** One pass over the text from left to right, replacing at each % sign the first
      pattern that matches. There is no result if some % sign starts no pattern or
      its replacement cannot be made. */
  function Substitute(tab: seq<Rule>, text: seq<byte>): (r: Option<seq<byte>>)
    requires TableOk(tab)
    decreases |text|
  {
    if text == [] then Some([])
    else if text[0] != PERCENT then Prepend([text[0]], Substitute(tab, text[1..]))
    else match FirstMatch(tab, text)
      case None => None
      case Some(u) => if u.value.None? then None else Prepend(u.value.value, Substitute(tab, text[|u.pattern|..]))
  }

  /** How one round of the replacement ends. */
  datatype Round = NoMore | Failed(at: nat) | Replaced(at: nat, rule: Rule)

  function Prepend(a: seq<byte>, b: Option<seq<byte>>): (r: Option<seq<byte>>) {
    if b.None? then None else Some(a + b.value)
  }

  lemma PrependNothing(b: Option<seq<byte>>)
    ensures Prepend([], b) == b
  {
    assert b.Some? ==> [] + b.value == b.value;
  }

  lemma PrependTwice(a: seq<byte>, b: seq<byte>, r: Option<seq<byte>>)
    ensures Prepend(a, Prepend(b, r)) == Prepend(a + b, r)
  {
    assert r.Some? ==> a + (b + r.value) == a + b + r.value;
  }

  /** Text before the next % sign stays as it is. */
  lemma {:induction false} SubstituteSkip(tab: seq<Rule>, a: seq<byte>, b: seq<byte>)
    requires TableOk(tab) && PERCENT !in a
    ensures Substitute(tab, a + b) == Prepend(a, Substitute(tab, b))
  {
    if a == [] {
      assert a + b == b;
      var r := Substitute(tab, b);
      assert r.Some? ==> a + r.value == r.value;
    } else {
      SubstituteSkip(tab, a[1..], b);
      assert (a + b)[1..] == a[1..] + b && (a + b)[0] == a[0];
      var r := Substitute(tab, b);
      assert r.Some? ==> [a[0]] + (a[1..] + r.value) == a + r.value;
    }
  }

  /** A finished text has no % sign left, so substituting again changes nothing. */
  lemma {:induction false} SubstituteTwice(tab: seq<Rule>, text: seq<byte>)
    requires TableOk(tab) && Flat(tab) && Substitute(tab, text).Some?
    ensures PERCENT !in Substitute(tab, text).value
    ensures Substitute(tab, Substitute(tab, text).value) == Substitute(tab, text)
    decreases |text|
  {
    if text != [] {
      var u := FirstMatch(tab, text);
      SubstituteTwice(tab, if text[0] == PERCENT then text[|u.value.pattern|..] else text[1..]);
    }
    var r := Substitute(tab, text).value;
    SubstituteSkip(tab, r, []);
    assert r + [] == r;
  }

  /** p is the first % sign of the text at or after pos. */
  predicate IsNext(text: seq<byte>, pos: nat, p: nat) {
    pos <= p < |text| && text[p] == PERCENT && PERCENT !in text[pos..p]
  }

  /** What a % sign at the head of the text is replaced by. */
  predicate Replaces(tab: seq<Rule>, text: seq<byte>, u: Rule) {
    FirstMatch(tab, text) == Some(u) && u.value.Some?
  }

  /** Up to the next % sign, at position p, nothing changes. */
  lemma SkipToPercent(tab: seq<Rule>, done: seq<byte>, rest: seq<byte>, pos: nat, p: nat) returns (tail: seq<byte>)
    requires TableOk(tab) && pos <= |done| && PERCENT !in done[pos..]
    requires IsNext(done + rest, pos, p)
    ensures |tail| <= |rest| && tail == (done + rest)[p..] && tail != [] && tail[0] == PERCENT
    ensures Prepend(done, Substitute(tab, rest)) == Prepend((done + rest)[..p], Substitute(tab, tail))
  {
    forall i | pos <= i < |done|
      ensures done[i] != PERCENT
    {
      assert done[pos..][i - pos] == done[i];
    }
    var k := p - |done|;
    tail := rest[k..];
    forall x | x in rest[..k]
      ensures x in (done + rest)[pos..p]
    {
      var i :| 0 <= i < k && rest[i] == x;
      assert (done + rest)[pos..p][|done| - pos + i] == x;
    }
    assert rest == rest[..k] + tail;
    SubstituteSkip(tab, rest[..k], tail);
    PrependTwice(done, rest[..k], Substitute(tab, tail));
    assert done + rest[..k] == (done + rest)[..p];
  }

  /** Looking again at replacements changes nothing: none has a % sign in it, or at least
      the result of the single pass has none. */
  predicate Settles(tab: seq<Rule>, text: seq<byte>)
    requires TableOk(tab)
  {
    Flat(tab) || (Substitute(tab, text).Some? && PERCENT !in Substitute(tab, text).value)
  }

  /** At a % sign whose pattern has a replacement. */
  lemma ReplaceStep(tab: seq<Rule>, done: seq<byte>, tail: seq<byte>, u: Rule)
    requires TableOk(tab) && tail != [] && tail[0] == PERCENT && Replaces(tab, tail, u)
    requires Flat(tab) || (var r := Prepend(done, Substitute(tab, tail)); r.Some? && PERCENT !in r.value)
    ensures 0 < |u.pattern| <= |tail| && PERCENT !in (done + u.value.value)[|done|..]
    ensures Prepend(done, Substitute(tab, tail)) == Prepend(done + u.value.value, Substitute(tab, tail[|u.pattern|..]))
  {
    hide FirstMatch, Prepend;
    assert (done + u.value.value)[|done|..] == u.value.value;
    PrependTwice(done, u.value.value, Substitute(tab, tail[|u.pattern|..]));
    if !Flat(tab) {
      PartOfResult(done + u.value.value, Substitute(tab, tail[|u.pattern|..]));
    }
  }

  lemma PartOfResult(a: seq<byte>, b: Option<seq<byte>>)
    requires Prepend(a, b).Some? && PERCENT !in Prepend(a, b).value
    ensures PERCENT !in a
  {
    forall x | x in a
      ensures x in a + b.value
    {
      var i :| 0 <= i < |a| && a[i] == x;
      assert (a + b.value)[i] == x;
    }
  }

  /** At a % sign that starts no pattern or whose replacement cannot be made. */
  lemma NoReplacement(tab: seq<Rule>, done: seq<byte>, tail: seq<byte>)
    requires TableOk(tab) && tail != [] && tail[0] == PERCENT
    requires forall u :: !Replaces(tab, tail, u)
    ensures Prepend(done, Substitute(tab, tail)) == None
  {
    var r := FirstMatch(tab, tail);
    assert r.Some? ==> !Replaces(tab, tail, r.value);
  }

  /** Why a text has to settle: a rule that stands for itself gives back the text it was
      applied to, with the search at the same place, so the loop would never end. */
  lemma SelfReplacementRepeats(tab: seq<Rule>, text: seq<byte>, pos: nat, u: Rule)
    requires TableOk(tab) && pos < |text| && text[pos] == PERCENT
    requires FirstMatch(tab, text[pos..]) == Some(u) && u.value == Some(u.pattern)
    ensures text[..pos] + u.value.value + text[pos + |u.pattern|..] == text && !Flat(tab)
  {
    assert text[pos..][..|u.pattern|] == u.pattern;
    assert u.pattern[0] == PERCENT;
    assert text == text[..pos] + text[pos..];
    assert text[pos..][|u.pattern|..] == text[pos + |u.pattern|..];
    assert text[pos..] == text[pos..][..|u.pattern|] + text[pos..][|u.pattern|..];
  }

  /** With no % sign left, what is there is the result. */
  lemma NoPercentLeft(tab: seq<Rule>, done: seq<byte>, rest: seq<byte>, pos: nat)
    requires TableOk(tab) && pos <= |done| && PERCENT !in (done + rest)[pos..]
    ensures Prepend(done, Substitute(tab, rest)) == Some(done + rest)
  {
    forall x | x in rest
      ensures x in (done + rest)[pos..]
    {
      var i :| 0 <= i < |rest| && rest[i] == x;
      assert (done + rest)[pos..][|done| - pos + i] == x;
    }
    SubstituteSkip(tab, rest, []);
    assert rest + [] == rest;
  }

  // ---- The loop as rounds ----

  /** The first % sign at or after pos. */
  function NextPercent(text: seq<byte>, pos: nat): (r: Option<nat>)
    requires pos <= |text|
    ensures match r case Some(p) => IsNext(text, pos, p) case None => PERCENT !in text[pos..]
    decreases |text| - pos
  {
    if pos == |text| then None
    else if text[pos] == PERCENT then Some(pos)
    else
      var r := NextPercent(text, pos + 1);
      assert text[pos..] == [text[pos]] + text[pos + 1..];
      assert r.Some? ==> text[pos..r.value] == [text[pos]] + text[pos + 1..r.value];
      r
  }

  /** One round of the loop, which looks from pos on. */
  function RoundOf(tab: seq<Rule>, text: seq<byte>, pos: nat): (r: Round)
    requires pos <= |text|
    ensures r.NoMore? ==> PERCENT !in text[pos..]
    ensures r.Failed? ==> IsNext(text, pos, r.at) && forall u :: !Replaces(tab, text[r.at..], u)
    ensures r.Replaced? ==>
              IsNext(text, pos, r.at) && Replaces(tab, text[r.at..], r.rule) && r.at + |r.rule.pattern| <= |text|
  {
    match NextPercent(text, pos)
    case None => NoMore
    case Some(p) =>
      match FirstMatch(tab, text[p..])
      case None => Failed(p)
      case Some(u) => if u.value.None? then Failed(p) else Replaced(p, u)
  }

  /** Where the loop is: at work, ended with a text, or ended with an error. */
  datatype Fate = Going(text: seq<byte>, pos: nat) | Ended(text: seq<byte>) | Error

  function NextFate(tab: seq<Rule>, text: seq<byte>, pos: nat): (f: Fate)
    requires pos <= |text|
    ensures f.Going? ==> pos <= f.pos < |f.text|
  {
    match RoundOf(tab, text, pos)
    case NoMore => Ended(text)
    case Failed(_) => Error
    case Replaced(p, u) =>
      var text' := text[..p] + u.value.value + text[p + |u.pattern|..];
      if p >= |text'| then Ended(text') else Going(text', p)
  }

  /** After at most n rounds. */
  function Rounds(tab: seq<Rule>, text: seq<byte>, pos: nat, n: nat): (f: Fate)
    requires pos <= |text|
    decreases n
  {
    if n == 0 then Going(text, pos)
    else
      var f := NextFate(tab, text, pos);
      if f.Going? then Rounds(tab, f.text, f.pos, n - 1) else f
  }

  /** The same prefix, one % sign farther. */
  lemma PrefixStays(text: seq<byte>, pos: nat, p: nat, rest: seq<byte>)
    requires IsNext(text, pos, p) && PERCENT !in text[..pos]
    ensures (text[..p] + rest)[..p] == text[..p] && PERCENT !in text[..p]
  {
    assert text[..p] == text[..pos] + text[pos..p];
  }

  /** The loop ends only with a text that has no % sign. */
  lemma {:induction false} EndedHasNoPercent(tab: seq<Rule>, text: seq<byte>, pos: nat, n: nat)
    requires pos <= |text| && PERCENT !in text[..pos] && Rounds(tab, text, pos, n).Ended?
    ensures PERCENT !in Rounds(tab, text, pos, n).text
    decreases n
  {
    hide FirstMatch, RoundOf, NextPercent, StartsWith;
    var r := RoundOf(tab, text, pos);
    if r.NoMore? {
      assert text == text[..pos] + text[pos..];
    } else if r.Replaced? {
      var rest := r.rule.value.value + text[r.at + |r.rule.pattern|..];
      PrefixStays(text, pos, r.at, rest);
      var text' := text[..r.at] + r.rule.value.value + text[r.at + |r.rule.pattern|..];
      assert text' == text[..r.at] + rest;
      if r.at >= |text'| {
        assert text' == text[..r.at];
      } else {
        EndedHasNoPercent(tab, text', r.at, n - 1);
      }
    }
  }

  /** If the result of the single pass has no % sign, the loop ends with it. */
  lemma {:induction false} PassIsReached(tab: seq<Rule>, done: seq<byte>, rest: seq<byte>, pos: nat) returns (n: nat)
    requires TableOk(tab) && pos <= |done| && PERCENT !in done[pos..]
    requires var r := Prepend(done, Substitute(tab, rest)); r.Some? && PERCENT !in r.value
    ensures Rounds(tab, done + rest, pos, n) == Ended(Prepend(done, Substitute(tab, rest)).value)
    decreases |rest|
  {
    hide Substitute, Prepend, FirstMatch, TableOk, StartsWith, RoundOf, NextPercent, Flat;
    var text := done + rest;
    var r := RoundOf(tab, text, pos);
    n := 1;
    if r.NoMore? {
      NoPercentLeft(tab, done, rest, pos);
      return;
    }
    var tail := SkipToPercent(tab, done, rest, pos, r.at);
    if r.Failed? {
      NoReplacement(tab, text[..r.at], tail);
      return;
    }
    var u := r.rule;
    ReplaceStep(tab, text[..r.at], tail, u);
    var done', rest' := text[..r.at] + u.value.value, tail[|u.pattern|..];
    assert text[r.at + |u.pattern|..] == rest';
    if r.at >= |done' + rest'| {
      assert rest' == [] && done' + rest' == done';
      NoPercentLeft(tab, done', rest', r.at);
    } else {
      var m := PassIsReached(tab, done', rest', r.at);
      n := m + 1;
    }
  }

  /** The exact condition: where the single pass has a result, the loop ends with it if
      and only if there is no % sign in it. */
  lemma LoopIsPass(tab: seq<Rule>, text: seq<byte>)
    requires TableOk(tab) && Substitute(tab, text).Some?
    ensures (exists n :: Rounds(tab, text, 0, n) == Ended(Substitute(tab, text).value)) <==> PERCENT !in Substitute(tab, text).value
  {
    hide Rounds, Substitute, Prepend;
    var v := Substitute(tab, text).value;
    if PERCENT !in v {
      PrependNothing(Substitute(tab, text));
      var n := PassIsReached(tab, [], text, 0);
      assert [] + text == text;
    }
    forall n: nat | Rounds(tab, text, 0, n) == Ended(v)
      ensures PERCENT !in v
    {
      EndedHasNoPercent(tab, text, 0, n);
    }
  }

  // ---- The buffer ----

  class Buffer {
    /** The allocation; empty before the first append. */
    var allocd: array<byte>
    /** Where the data starts in it. */
    var start: nat
    var maxLength: nat
    var length: nat

    constructor ()
      ensures Valid() && Contents() == [] && fresh(allocd)
    {
      allocd, start, maxLength, length := new byte[0], 0, 0, 0;
    }

    ghost predicate Valid()
      reads this
    {
      if allocd.Length == 0 then start == 0 && maxLength == 0 && length == 0
      else allocd.Length == maxLength + 1 && start + length <= maxLength
    }

    ghost function Contents(): (s: seq<byte>)
      requires Valid()
      reads this, allocd
      ensures |s| == length
    {
      allocd[start..start + length]
    }

    /** The byte after the data is NUL. */
    ghost predicate Terminated()
      requires Valid()
      reads this, allocd
    {
      start + length < allocd.Length && allocd[start + length] == 0
    }

    /** memmove of the data to the start of the allocation. */
    method MoveToFront()
      requires Valid()
      modifies this`start, allocd
      ensures Valid() && start == 0 && Contents() == old(Contents())
    {
      ghost var s := Contents();
      for i := 0 to length
        invariant forall j :: 0 <= j < i ==> allocd[j] == s[j]
        invariant forall j :: start + i <= j < start + length ==> allocd[j] == old(allocd[j])
        modifies allocd
      {
        allocd[i] := allocd[start + i];
      }
      start := 0;
    }

    /** str_append_size: room for data_size more bytes and one after them. */
    method AppendSize(dataSize: nat)
      requires Valid()
      modifies this, allocd
      ensures Valid() && Contents() == old(Contents()) && length == old(length)
      ensures dataSize > 0 ==> start + length + dataSize < allocd.Length
      ensures allocd == old(allocd) || fresh(allocd)
    {
      var tot := dataSize + length;
      if dataSize == 0 { return; }
      if maxLength >= tot + 1 {
        if maxLength - start <= tot {
          MoveToFront();
        }
      } else {
        var newLen := Max(dataSize, MIN_CHUNK) + Max(maxLength, MIN_CHUNK);
        var a := new byte[newLen + 1];
        for i := 0 to allocd.Length
          invariant forall j :: 0 <= j < i ==> a[j] == allocd[j]
          modifies a
        {
          a[i] := allocd[i];
        }
        allocd, maxLength := a, newLen;
        MoveToFront();
      }
    }

    /** memcpy behind the data. */
    method CopyIn(data: seq<byte>)
      requires Valid() && start + length + |data| < allocd.Length
      modifies allocd
      ensures allocd[start..start + length + |data|] == old(Contents()) + data
    {
      ghost var s := Contents();
      for i := 0 to |data|
        invariant allocd[start..start + length + i] == s + data[..i]
      {
        ghost var before := allocd[start..start + length + i];
        allocd[start + length + i] := data[i];
        assert allocd[start..start + length + i] == before;
        assert data[..i + 1] == data[..i] + [data[i]];
      }
    }

    /** str_append_data: always leaves a NUL after the data. */
    method AppendData(data: seq<byte>)
      requires Valid()
      modifies this, allocd
      ensures Valid() && Terminated() && Contents() == old(Contents()) + data
      ensures allocd == old(allocd) || fresh(allocd)
    {
      AppendSize(|data| + 1);
      CopyIn(data);
      length := length + |data|;
      ghost var s := Contents();
      allocd[start + length] := 0;
      assert Contents() == s;
    }

    /** str_append_str: a missing string is an error; the terminator is written but
        not counted. */
    method AppendStr(src: Option<seq<byte>>) returns (ret: int)
      requires Valid()
      modifies this, allocd
      ensures Valid() && (ret == 0 <==> src.Some?) && (ret == 0 || ret == -1)
      ensures src.Some? ==> Terminated() && Contents() == old(Contents()) + src.value
      ensures src.None? ==> allocd == old(allocd) && Contents() == old(Contents())
      ensures allocd == old(allocd) || fresh(allocd)
    {
      if src.None? { return -1; }
      AppendData(src.value + [0]);
      ghost var s := Contents();
      length := length - 1;
      assert Contents() == s[..|s| - 1];
      ret := 0;
    }

    /** memchr: the first % sign at or after pos. */
    method FindPercent(pos: nat) returns (at: Option<nat>)
      requires Valid() && pos <= length
      ensures at.None? ==> PERCENT !in Contents()[pos..]
      ensures at.Some? ==> IsNext(Contents(), pos, at.value)
      ensures at == NextPercent(Contents(), pos)
    {
      var i := pos;
      while i < length
        invariant pos <= i <= length && PERCENT !in Contents()[pos..i]
        invariant NextPercent(Contents(), pos) == NextPercent(Contents(), i)
      {
        if allocd[start + i] == PERCENT { return Some(i); }
        assert Contents()[pos..i + 1] == Contents()[pos..i] + [Contents()[i]];
        i := i + 1;
      }
      return None;
    }

    /** The walk of the table. */
    static method WalkTable(tab: seq<Rule>, text: seq<byte>) returns (r: Option<Rule>)
      ensures r == FirstMatch(tab, text)
    {
      assert tab[0..] == tab;
      for i := 0 to |tab|
        invariant FirstMatch(tab, text) == FirstMatch(tab[i..], text)
      {
        assert tab[i..][0] == tab[i] && tab[i..][1..] == tab[i + 1..];
        if |text| >= |tab[i].pattern| && tab[i].pattern == text[..|tab[i].pattern|] { return Some(tab[i]); }
      }
      return None;
    }

    /** The rule for the % sign at pos. */
    method Lookup(tab: seq<Rule>, pos: nat) returns (r: Option<Rule>)
      requires Valid() && pos <= length
      ensures r == FirstMatch(tab, Contents()[pos..])
    {
      hide FirstMatch;
      var text := allocd[start + pos..start + length];
      assert text == Contents()[pos..];
      r := WalkTable(tab, text);
    }

    /** Replaces the pattern of u, which stands at pos. */
    method ReplaceAt(pos: nat, u: Rule) returns (ret: int)
      requires Valid() && pos < length && StartsWith(Contents()[pos..], u.pattern)
      modifies this, allocd
      ensures Valid() && (allocd == old(allocd) || fresh(allocd))
      ensures (ret == 0 <==> u.value.Some?) && (ret == 0 || ret == -1)
      ensures ret == 0 ==> Terminated() && Contents() == old(Contents())[..pos] + u.value.value + old(Contents())[pos + |u.pattern|..]
    {
      ghost var s := Contents();
      var final := allocd[start + pos + |u.pattern|..start + length];
      assert final == s[pos + |u.pattern|..];
      assert s[..pos] == allocd[start..start + pos];
      length := pos;
      ret := AppendStr(u.value);
      if ret < 0 { return; }
      AppendData(final);
    }

    /** One round of str_replace_str: the next % sign, the table, the replacement. */
    method ReplaceNext(tab: seq<Rule>, pos: nat) returns (r: Round)
      requires Valid() && pos <= length
      modifies this, allocd
      ensures Valid() && (allocd == old(allocd) || fresh(allocd))
      ensures r == RoundOf(tab, old(Contents()), pos)
      ensures r.NoMore? ==> PERCENT !in old(Contents())[pos..] && unchanged(this) && unchanged(allocd)
      ensures r.Failed? ==> IsNext(old(Contents()), pos, r.at) && forall u :: !Replaces(tab, old(Contents())[r.at..], u)
      ensures r.Replaced? ==> IsNext(old(Contents()), pos, r.at) && Replaces(tab, old(Contents())[r.at..], r.rule)
      ensures r.Replaced? ==> Terminated()
      ensures r.Replaced? ==> Contents() == old(Contents())[..r.at] + r.rule.value.value + old(Contents())[r.at + |r.rule.pattern|..]
    {
      hide FirstMatch, Contents, NextPercent;
      var at := FindPercent(pos);
      if at.None? { return NoMore; }
      var u := Lookup(tab, at.value);
      if u.None? { return Failed(at.value); }
      var ret := ReplaceAt(at.value, u.value);
      if ret < 0 { return Failed(at.value); }
      return Replaced(at.value, u.value);
    }

    /** str_replace_str: replaces in place and looks again from the replacement on. If
        the text settles, that is one pass over it, and the error is returned exactly
        when that pass has no result. */
    method ReplaceStr(tab: seq<Rule>) returns (ret: int)
      requires Valid() && TableOk(tab) && Settles(tab, Contents())
      modifies this, allocd
      ensures Valid() && (ret == 0 || ret == -1)
      ensures ret == 0 <==> Substitute(tab, old(Contents())).Some?
      ensures ret == 0 ==> Contents() == Substitute(tab, old(Contents())).value && (old(Terminated()) ==> Terminated())
    {
      hide Substitute, FirstMatch, StartsWith, Prepend, Flat, TableOk, Contents, Valid, Terminated, RoundOf, NextPercent;
      var pos := 0;
      ghost var goal := Substitute(tab, Contents());
      ghost var done: seq<byte>, rest := [], Contents();
      PrependNothing(goal);
      while true
        invariant Valid() && 0 <= pos <= |done| && PERCENT !in done[pos..]
        invariant (allocd == old(allocd) || fresh(allocd)) && (old(Terminated()) ==> Terminated())
        invariant Contents() == done + rest && goal == Prepend(done, Substitute(tab, rest))
        invariant Flat(tab) || (goal.Some? && PERCENT !in goal.value)
        decreases |rest|
      {
        var r := ReplaceNext(tab, pos);
        if r.NoMore? {
          NoPercentLeft(tab, done, rest, pos);
          return 0;
        }
        ghost var tail := SkipToPercent(tab, done, rest, pos, r.at);
        ghost var text := done + rest;
        if r.Failed? {
          NoReplacement(tab, text[..r.at], tail);
          return -1;
        }
        ReplaceStep(tab, text[..r.at], tail, r.rule);
        done, rest := text[..r.at] + r.rule.value.value, tail[|r.rule.pattern|..];
        pos := r.at;
        if pos >= length {
          NoPercentLeft(tab, done, rest, pos);
          return 0;
        }
      }
    }
  }
}
