/** `Helper::getStrBytes` of opis/uri: split a byte string into one group of
    bytes per UTF-8 character, stopping at the first malformed byte with the
    offset of the byte it blames. */
module Helper {
  import opened Utf8

  /** One yielded pair `offset => [bytes]`. */
  datatype Group = Group(offset: nat, bytes: seq<byte>)

  /** What a consumer of the generator observes: every group it yields and,
      when the string is malformed, the offset carried by the exception that
      ends the iteration. */
  datatype Outcome =
    | Complete(groups: seq<Group>)
    | Failed(groups: seq<Group>, offset: nat)

  /** What one turn of the loop does starting at a character boundary. */
  datatype Step = Char(bytes: seq<byte>) | Invalid(offset: nat)

  /** One turn of the loop, with the character starting at cursor `i`:
      the same tests in the same order as the source, so that a string that
      ends early is reported before later range checks are made. */
  function NextChar(s: seq<byte>, i: nat): (r: Step)
    requires i < |s|
    ensures r.Char? ==> 1 <= |r.bytes| <= 4 && i + |r.bytes| <= |s|
    ensures r.Char? ==> r.bytes == s[i..i + |r.bytes|]
    ensures r.Invalid? ==> i <= r.offset < |s|
  {
    var b0 := s[i];
    if b0 < 0x80 then Char([b0])
    else if i + 1 == |s| || b0 < 0xC2 || b0 > 0xF4 then Invalid(i)
    else
      var b1 := s[i + 1];
      if b0 < 0xE0 then
        if b1 < 0x80 || b1 >= 0xC0 then Invalid(i + 1) else Char([b0, b1])
      else if i + 2 == |s| then Invalid(i + 1)
      else
        var b2 := s[i + 2];
        if b0 < 0xF0 then
          if (if b0 == 0xE0 then b1 < 0xA0 || b1 >= 0xC0
              else if b0 == 0xED then b1 < 0x80 || b1 >= 0xA0
              else b1 < 0x80 || b1 >= 0xC0)
          then Invalid(i + 1)
          else if b2 < 0x80 || b2 >= 0xC0 then Invalid(i + 2)
          else Char([b0, b1, b2])
        else if i + 3 == |s| then Invalid(i + 2)
        else
          var b3 := s[i + 3];
          // the source's closing throw, for a lead above 0xF4, is never reached
          assert b0 < 0xF5;
          if (if b0 == 0xF0 then b1 < 0x90 || b1 >= 0xC0
              else if b0 == 0xF4 then b1 < 0x80 || b1 >= 0x90
              else b1 < 0x80 || b1 >= 0xC0)
          then Invalid(i + 1)
          else if b2 < 0x80 || b2 >= 0xC0 then Invalid(i + 2)
          else if b3 < 0x80 || b3 >= 0xC0 then Invalid(i + 3)
          else Char([b0, b1, b2, b3])
  }

  /** The groups `gs` already yielded, in front of outcome `o`. */
  function Resume(gs: seq<Group>, o: Outcome): Outcome {
    o.(groups := gs + o.groups)
  }

  /** The iteration from cursor `i` to the end of `s`. */
  function ScanFrom(s: seq<byte>, i: nat): (o: Outcome)
    requires i <= |s|
    ensures o.Failed? ==> i <= o.offset < |s|
    decreases |s| - i, 1
  {
    if i == |s| then Complete([]) else AfterStep(s, i, NextChar(s, i))
  }

  /** What the loop does with the result `r` of the turn at cursor `i`:
      throw, or yield the group and go on after it. */
  function AfterStep(s: seq<byte>, i: nat, r: Step): (o: Outcome)
    requires i < |s|
    requires r.Char? ==> 1 <= |r.bytes| && i + |r.bytes| <= |s|
    requires r.Invalid? ==> i <= r.offset < |s|
    ensures o.Failed? ==> i <= o.offset < |s|
    decreases |s| - i, 0
  {
    match r
    case Invalid(e) => Failed([], e)
    case Char(g) => Resume([Group(i, g)], ScanFrom(s, i + |g|))
  }

  /** Everything a consumer of `getStrBytes($str)` observes. */
  function Decomposition(s: seq<byte>): (o: Outcome)
    ensures o.Failed? ==> o.offset < |s|
  {
    ScanFrom(s, 0)
  }

  /** One turn of the loop, as the iteration sees it. */
  lemma ScanStep(s: seq<byte>, gs: seq<Group>, i: nat)
    requires i < |s|
    ensures NextChar(s, i).Invalid? ==>
              Resume(gs, ScanFrom(s, i)) == Failed(gs, NextChar(s, i).offset)
    ensures NextChar(s, i).Char? ==>
              var g := Group(i, NextChar(s, i).bytes);
              Resume(gs, ScanFrom(s, i)) == Resume(gs + [g], ScanFrom(s, i + |g.bytes|))
  {
    if NextChar(s, i).Char? {
      var g := Group(i, NextChar(s, i).bytes);
      assert gs + [g] + ScanFrom(s, i + |g.bytes|).groups == gs + ([g] + ScanFrom(s, i + |g.bytes|).groups);
    }
  }

  /** The generator, driven to its end: the cursor `i` walks the string one
      byte read at a time, `index` remembers where the current character
      began, and each throw ends the iteration after the groups yielded so
      far. */
  method GetStrBytes(str: seq<byte>) returns (r: Outcome)
    ensures r == Decomposition(str)
  {
    var i: nat := 0;
    var length := |str|;
    var groups: seq<Group> := [];
    while i < length
      invariant i <= length
      invariant Decomposition(str) == Resume(groups, ScanFrom(str, i))
    {
      var index := i;
      ScanStep(str, groups, index);
      var ord0 := str[i];
      i := i + 1;
      if ord0 < 0x80 {
        groups := groups + [Group(index, [ord0])];
        continue;
      }
      if i == length || ord0 < 0xC2 || ord0 > 0xF4 {
        return Failed(groups, i - 1);
      }
      var ord1 := str[i];
      i := i + 1;
      if ord0 < 0xE0 {
        if ord1 < 0x80 || ord1 >= 0xC0 {
          return Failed(groups, i - 1);
        }
        groups := groups + [Group(index, [ord0, ord1])];
        continue;
      }
      if i == length {
        return Failed(groups, i - 1);
      }
      var ord2 := str[i];
      i := i + 1;
      if ord0 < 0xF0 {
        if ord0 == 0xE0 {
          if ord1 < 0xA0 || ord1 >= 0xC0 {
            return Failed(groups, i - 2);
          }
        } else if ord0 == 0xED {
          if ord1 < 0x80 || ord1 >= 0xA0 {
            return Failed(groups, i - 2);
          }
        } else if ord1 < 0x80 || ord1 >= 0xC0 {
          return Failed(groups, i - 2);
        }
        if ord2 < 0x80 || ord2 >= 0xC0 {
          return Failed(groups, i - 1);
        }
        groups := groups + [Group(index, [ord0, ord1, ord2])];
        continue;
      }
      if i == length {
        return Failed(groups, i - 1);
      }
      var ord3 := str[i];
      i := i + 1;
      // a lead above 0xF4 was rejected before its second byte was read, so
      // the source's closing throw after this test is unreachable
      assert ord0 < 0xF5;
      if ord0 == 0xF0 {
        if ord1 < 0x90 || ord1 >= 0xC0 {
          return Failed(groups, i - 3);
        }
      } else if ord0 == 0xF4 {
        if ord1 < 0x80 || ord1 >= 0x90 {
          return Failed(groups, i - 3);
        }
      } else if ord1 < 0x80 || ord1 >= 0xC0 {
        return Failed(groups, i - 3);
      }
      if ord2 < 0x80 || ord2 >= 0xC0 {
        return Failed(groups, i - 2);
      }
      if ord3 < 0x80 || ord3 >= 0xC0 {
        return Failed(groups, i - 1);
      }
      groups := groups + [Group(index, [ord0, ord1, ord2, ord3])];
    }
    return Complete(groups);
  }

  /** Where the grammar alone says a decomposer with the source's checking
      order reports a malformed character starting at boundary `k`: when a
      valid lead byte announces more bytes than remain, the last byte of the
      string; otherwise the first byte `e` with which `s[k..e + 1]` stops
      being the beginning of any UTF8-char. */
  ghost predicate ErrorAt(s: seq<byte>, k: nat, e: nat)
    requires k < |s|
  {
    if CharPrefix([s[k]]) && k + LeadLength(s[k]) > |s| then e == |s| - 1
    else k <= e < |s| && CharPrefix(s[k..e]) && !CharPrefix(s[k..e + 1])
  }

  /** What one turn of the loop yields is a UTF8-char of the length its
      lead byte announces, taken from the input at the cursor. */
  lemma NextCharAccepts(s: seq<byte>, i: nat)
    requires i < |s| && NextChar(s, i).Char?
    ensures var g := NextChar(s, i).bytes;
            Utf8Char(g) && |g| == LeadLength(s[i]) && g == s[i..i + |g|]
  {
  }

  /** What one turn of the loop rejects is blamed where ErrorAt says. */
  lemma NextCharBlames(s: seq<byte>, i: nat)
    requires i < |s| && NextChar(s, i).Invalid?
    ensures ErrorAt(s, i, NextChar(s, i).offset)
  {
    var e := NextChar(s, i).offset;
    CharPrefixIff([s[i]]);
    if e == i {
      assert s[i..e + 1] == [s[i]];
      CharPrefixIff([]);
    } else if e == i + 1 {
      assert s[i..e] == [s[i]];
      assert s[i..e + 1] == [s[i], s[i + 1]];
      CharPrefixIff([s[i], s[i + 1]]);
    } else if e == i + 2 {
      assert s[i..e] == [s[i], s[i + 1]];
      assert s[i..e + 1] == [s[i], s[i + 1], s[i + 2]];
      CharPrefixIff([s[i], s[i + 1]]);
      CharPrefixIff([s[i], s[i + 1], s[i + 2]]);
    } else {
      assert s[i..e] == [s[i], s[i + 1], s[i + 2]];
      assert s[i..e + 1] == [s[i], s[i + 1], s[i + 2], s[i + 3]];
      CharPrefixIff([s[i], s[i + 1], s[i + 2]]);
      CharPrefixIff([s[i], s[i + 1], s[i + 2], s[i + 3]]);
    }
  }

  /** Every UTF8-char at a boundary is accepted, whole. */
  lemma NextCharComplete(s: seq<byte>, i: nat, n: nat)
    requires i + n <= |s| && Utf8Char(s[i..i + n])
    ensures NextChar(s, i) == Char(s[i..i + n])
  {
  }

  /** The bytes of the groups, one after another. */
  function Joined(gs: seq<Group>): seq<byte> {
    if gs == [] then [] else gs[0].bytes + Joined(gs[1..])
  }

  /** The byte strings of the groups, as a list of characters. */
  function Chars(gs: seq<Group>): (cs: seq<seq<byte>>)
    ensures |cs| == |gs| && forall j | 0 <= j < |gs| :: cs[j] == gs[j].bytes
  {
    if gs == [] then [] else [gs[0].bytes] + Chars(gs[1..])
  }

  lemma {:induction false} JoinedChars(gs: seq<Group>)
    ensures Joined(gs) == Concat(Chars(gs))
  {
    if gs != [] {
      JoinedChars(gs[1..]);
      ConcatCons(gs[0].bytes, Chars(gs[1..]));
    }
  }

  /** Group `g` is a UTF8-char, of the length its lead byte announces, and
      it is the bytes of `s` found at its own offset. */
  ghost predicate GroupAt(s: seq<byte>, g: Group) {
    && Utf8Char(g.bytes)
    && |g.bytes| == LeadLength(g.bytes[0])
    && g.offset + |g.bytes| <= |s|
    && g.bytes == s[g.offset..g.offset + |g.bytes|]
  }

  /** A turn that yields a character puts its group in front of the rest
      of the iteration. */
  lemma ScanFromChar(s: seq<byte>, i: nat)
    requires i < |s| && NextChar(s, i).Char?
    ensures ScanFrom(s, i) == Resume([Group(i, NextChar(s, i).bytes)], ScanFrom(s, i + |NextChar(s, i).bytes|))
  {
  }

  /** A turn that throws ends the iteration with its own offset. */
  lemma ScanFromInvalid(s: seq<byte>, i: nat)
    requires i < |s| && NextChar(s, i).Invalid?
    ensures ScanFrom(s, i) == Failed([], NextChar(s, i).offset)
  {
  }

  lemma SliceSplit<T>(s: seq<T>, i: nat, j: nat, k: nat)
    requires i <= j <= k <= |s|
    ensures s[i..k] == s[i..j] + s[j..k]
  {
  }

  lemma JoinedCons(g: Group, gs: seq<Group>)
    ensures Joined([g] + gs) == g.bytes + Joined(gs)
  {
    assert ([g] + gs)[1..] == gs;
  }

  /** An iteration from cursor `i` that completes has yielded groups
      covering everything from `i` to the end of the string. */
  lemma {:induction false} ScanFromTiles(s: seq<byte>, i: nat)
    requires i <= |s|
    ensures ScanFrom(s, i).Complete? ==> i + |Joined(ScanFrom(s, i).groups)| == |s|
    decreases |s| - i
  {
    if i < |s| && NextChar(s, i).Char? {
      var g := NextChar(s, i).bytes;
      var j := i + |g|;
      ScanFromTiles(s, j);
      ScanFromChar(s, i);
      JoinedCons(Group(i, g), ScanFrom(s, j).groups);
    } else if i < |s| {
      ScanFromInvalid(s, i);
    }
  }

  /** The groups `gs` sit one after another in `s` from offset `i` on,
      each a UTF8-char of the length its lead byte announces and equal to
      the bytes of `s` at its own offset. */
  ghost predicate Tiling(s: seq<byte>, gs: seq<Group>, i: nat) {
    gs == [] || (gs[0].offset == i && GroupAt(s, gs[0]) && Tiling(s, gs[1..], i + |gs[0].bytes|))
  }

  /** Tiling groups join into the bytes of `s` they cover. */
  lemma {:induction false} TilingJoined(s: seq<byte>, gs: seq<Group>, i: nat)
    requires i <= |s| && Tiling(s, gs, i)
    ensures i + |Joined(gs)| <= |s| && Joined(gs) == s[i..i + |Joined(gs)|]
  {
    if gs != [] {
      var g := gs[0];
      var j := i + |g.bytes|;
      TilingJoined(s, gs[1..], j);
      JoinedCons(g, gs[1..]);
      assert [g] + gs[1..] == gs;
      SliceSplit(s, i, j, j + |Joined(gs[1..])|);
    }
  }

  /** Tiling, index by index: the first offset is `i`, each next offset is
      the previous one plus the previous group's length, and every group is
      GroupAt. */
  lemma {:induction false} TilingAt(s: seq<byte>, gs: seq<Group>, i: nat)
    requires Tiling(s, gs, i)
    ensures |gs| > 0 ==> gs[0].offset == i
    ensures forall j | 0 <= j < |gs| - 1 :: gs[j + 1].offset == gs[j].offset + |gs[j].bytes|
    ensures forall j | 0 <= j < |gs| :: GroupAt(s, gs[j])
  {
    if gs != [] {
      TilingAt(s, gs[1..], i + |gs[0].bytes|);
      assert forall j | 1 <= j < |gs| :: gs[j] == gs[1..][j - 1];
    }
  }

  /** Tiling groups are characters, so what they cover is UTF8-octets. */
  lemma TilingOctets(s: seq<byte>, gs: seq<Group>, i: nat)
    requires Tiling(s, gs, i)
    ensures Utf8Octets(Joined(gs))
  {
    TilingAt(s, gs, i);
    JoinedChars(gs);
    var cs := Chars(gs);
    forall j | 0 <= j < |cs| ensures Utf8Char(cs[j]) {
      assert GroupAt(s, gs[j]);
    }
  }

  /** The groups yielded from cursor `i` tile the string from `i` on. */
  lemma {:induction false} ScanFromGroups(s: seq<byte>, i: nat)
    requires i <= |s|
    ensures Tiling(s, ScanFrom(s, i).groups, i)
    decreases |s| - i
  {
    if i < |s| && NextChar(s, i).Char? {
      var g := NextChar(s, i).bytes;
      ScanFromChar(s, i);
      NextCharAccepts(s, i);
      ScanFromGroups(s, i + |g|);
      var gs := ScanFrom(s, i).groups;
      assert gs[1..] == ScanFrom(s, i + |g|).groups;
    } else if i < |s| {
      ScanFromInvalid(s, i);
    }
  }

  /** An iteration from cursor `i` that throws does so in the turn that
      starts at the boundary `k` right after the yielded groups. */
  lemma {:induction false} ScanFromStops(s: seq<byte>, i: nat)
    requires i <= |s|
    ensures var o := ScanFrom(s, i);
            var k := i + |Joined(o.groups)|;
            o.Failed? ==> k < |s| && NextChar(s, k) == Invalid(o.offset)
    decreases |s| - i
  {
    if i < |s| && NextChar(s, i).Char? {
      var g := NextChar(s, i).bytes;
      var j := i + |g|;
      ScanFromChar(s, i);
      ScanFromStops(s, j);
      var o, r := ScanFrom(s, i), ScanFrom(s, j);
      JoinedCons(Group(i, g), r.groups);
      assert o.groups == [Group(i, g)] + r.groups;
      assert i + |Joined(o.groups)| == j + |Joined(r.groups)|;
      assert o.Failed? ==> r.Failed? && o.offset == r.offset;
    } else if i < |s| {
      ScanFromInvalid(s, i);
      assert Joined(ScanFrom(s, i).groups) == [];
    }
  }

  /** An iteration started at a boundary before a run of characters `cs`
      runs to the end without throwing. */
  lemma {:induction false} CharsAccepted(s: seq<byte>, i: nat, cs: seq<seq<byte>>)
    requires i <= |s| && Concat(cs) == s[i..]
    requires forall j | 0 <= j < |cs| :: Utf8Char(cs[j])
    ensures ScanFrom(s, i).Complete?
    decreases cs
  {
    if cs != [] {
      var n := |cs[0]|;
      ConcatCons(cs[0], cs[1..]);
      assert cs == [cs[0]] + cs[1..];
      assert s[i..i + n] == cs[0];
      NextCharComplete(s, i, n);
      ScanFromChar(s, i);
      assert s[i + n..] == Concat(cs[1..]);
      assert forall j | 0 <= j < |cs[1..]| :: Utf8Char(cs[1..][j]) by {
        forall j | 0 <= j < |cs[1..]| ensures Utf8Char(cs[1..][j]) {
          assert cs[1..][j] == cs[j + 1];
        }
      }
      CharsAccepted(s, i + n, cs[1..]);
    } else {
      assert |s[i..]| == 0;
    }
  }

  /** A turn that throws at cursor `k` does so because no UTF8-char of the
      input starts at `k`, and it blames the offset ErrorAt places. */
  lemma RejectedHere(s: seq<byte>, k: nat)
    requires k < |s| && NextChar(s, k).Invalid?
    ensures ErrorAt(s, k, NextChar(s, k).offset)
    ensures forall e | k <= e <= |s| :: !Utf8Char(s[k..e])
  {
    NextCharBlames(s, k);
    forall e | k <= e <= |s| ensures !Utf8Char(s[k..e]) {
      if Utf8Char(s[k..e]) {
        NextCharComplete(s, k, e - k);
      }
    }
  }

  /** What a consumer of `getStrBytes` sees: offsets that start at 0 and
      each advance by the previous group's length, and groups that are whole
      UTF8-chars found in the input at their own offsets, which on success
      join back into the whole string. */
  lemma DecompositionTiles(s: seq<byte>)
    ensures var o := Decomposition(s);
            && (o.Complete? ==> Joined(o.groups) == s)
            && (|o.groups| > 0 ==> o.groups[0].offset == 0)
            && (forall j | 0 <= j < |o.groups| - 1 ::
                  o.groups[j + 1].offset == o.groups[j].offset + |o.groups[j].bytes|)
            && (forall j | 0 <= j < |o.groups| :: GroupAt(s, o.groups[j]))
  {
    var o := Decomposition(s);
    ScanFromGroups(s, 0);
    TilingJoined(s, o.groups, 0);
    TilingAt(s, o.groups, 0);
    ScanFromTiles(s, 0);
    assert s[0..|s|] == s;
  }

  /** When `getStrBytes` throws, the groups yielded before join into a
      well-formed prefix of the string. */
  lemma DecompositionPrefix(s: seq<byte>)
    requires Decomposition(s).Failed?
    ensures var k := |Joined(Decomposition(s).groups)|;
            k < |s| && Joined(Decomposition(s).groups) == s[..k] && Utf8Octets(s[..k])
  {
    var o := Decomposition(s);
    var k := |Joined(o.groups)|;
    ScanFromGroups(s, 0);
    TilingJoined(s, o.groups, 0);
    TilingOctets(s, o.groups, 0);
    ScanFromStops(s, 0);
    assert s[0..k] == s[..k];
  }

  /** When `getStrBytes` throws, no UTF8-char of the string starts right
      after the groups yielded before, and the error offset is the one
      ErrorAt places there. */
  lemma DecompositionStops(s: seq<byte>)
    requires Decomposition(s).Failed?
    ensures var o := Decomposition(s);
            var k := |Joined(o.groups)|;
            && k <= o.offset < |s| && ErrorAt(s, k, o.offset)
            && forall e | k <= e <= |s| :: !Utf8Char(s[k..e])
  {
    var k := |Joined(Decomposition(s).groups)|;
    ScanFromStops(s, 0);
    RejectedHere(s, k);
  }

  /** `getStrBytes` runs to its end without throwing exactly when the string
      is well-formed UTF-8 in the sense of section 4 of RFC 3629. */
  lemma DecompositionWellFormed(s: seq<byte>)
    ensures Decomposition(s).Complete? <==> Utf8Octets(s)
  {
    var o := Decomposition(s);
    if Utf8Octets(s) {
      var cs :| Concat(cs) == s && forall j | 0 <= j < |cs| :: Utf8Char(cs[j]);
      assert s[0..] == s;
      CharsAccepted(s, 0, cs);
    }
    if o.Complete? {
      ScanFromGroups(s, 0);
      ScanFromTiles(s, 0);
      TilingJoined(s, o.groups, 0);
      TilingOctets(s, o.groups, 0);
      assert s[0..|s|] == s;
    }
  }

  /** Cutting bytes off the end of a beginning of a UTF8-char in `s` from
      `k` on leaves a beginning of a UTF8-char. */
  lemma PrefixClosed(s: seq<byte>, k: nat)
    requires k <= |s|
    ensures forall a, b | k <= a <= b <= |s| && CharPrefix(s[k..b]) :: CharPrefix(s[k..a])
  {
    forall a, b | k <= a <= b <= |s| && CharPrefix(s[k..b]) ensures CharPrefix(s[k..a]) {
      CharPrefixShorter(s[k..b], s[k..a]);
    }
  }

  /** ErrorAt leaves no choice: at most one offset satisfies it, so the
      grammar fixes the blamed byte completely. */
  lemma ErrorAtUnique(s: seq<byte>, k: nat, e1: nat, e2: nat)
    requires k < |s| && ErrorAt(s, k, e1) && ErrorAt(s, k, e2)
    ensures e1 == e2
  {
    PrefixClosed(s, k);
  }

  /** A four-byte lead followed by a byte outside its second-byte range and
      then the end of the string: the string is already hopeless at offset
      1, but the early end is checked first and offset 2 is blamed. */
  lemma TruncationReportedFirst()
    ensures !CharPrefix([0xF0, 0x41])
    ensures Decomposition([0xF0, 0x41, 0x80]) == Failed([], 2)
  {
    CharPrefixIff([0xF0, 0x41]);
  }

  /** U+0041, U+00E9, U+20AC and U+1F600 in a row: one group per
      character, of one, two, three and four bytes. */
  lemma MixedWidths()
    ensures Decomposition([0x41, 0xC3, 0xA9, 0xE2, 0x82, 0xAC, 0xF0, 0x9F, 0x98, 0x80])
            == Complete([Group(0, [0x41]), Group(1, [0xC3, 0xA9]),
                         Group(3, [0xE2, 0x82, 0xAC]), Group(6, [0xF0, 0x9F, 0x98, 0x80])])
  {
  }

  /** The encoded surrogate U+D800 after an "a": the "a" is yielded, then
      the second byte after lead 0xED is blamed. */
  lemma SurrogateRejected()
    ensures Decomposition([0x61, 0xED, 0xA0, 0x80]) == Failed([Group(0, [0x61])], 2)
  {
  }
}
