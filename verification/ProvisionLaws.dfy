/** Which differences between two specs a rendered document shows. */
module ProvisionLaws {
  import opened Wrappers
  import opened Text
  import opened CloudText
  import opened CloudTextFacts
  import opened Provision
  import opened CloudReader

  /** A payload's rendering depends on its normalised text, and on nothing else. */
  lemma BlockShowsNormalised(p: string, q: string)
    ensures BlockLines(p) == BlockLines(q) <==> Normalised(p) == Normalised(q)
  {
    if Normalised(p) == Normalised(q) {
      UnlinesInjective(BlockLines(p), BlockLines(q));
    }
  }

  // ---------- validation ----------

  /** What a tag is refused for. */
  lemma TagObjectionIs(tag: string)
    ensures ValidateMountTag(tag) == if IsName(tag) then None else if AllSpace(tag) then Some(EmptyMountTag)
                                     else Some(InvalidMountTag(tag))
  {
    hide IsBlank;
    BlankIs(tag);
    ValidTagIs(tag);
    assert AllSpace(tag) <==> IsBlank(tag);
  }

  ghost predicate IsFirstBadTag(tags: seq<string>, k: int) {
    0 <= k < |tags| && !IsName(tags[k]) && forall j :: 0 <= j < k ==> IsName(tags[j])
  }

  /**
   A spec is accepted exactly if host name and bridge address are not blank and all tags
   are names; otherwise the first of these that fails, in this order, is reported.
   */
  lemma ValidateIs(spec: ProvisionSpec)
    ensures Validate(spec) == Some(EmptyHostname) <==> AllSpace(spec.hostname)
    ensures Validate(spec) == Some(EmptyBridgeCidr) <==> !AllSpace(spec.hostname) && AllSpace(spec.bridgeCidr)
    ensures !AllSpace(spec.hostname) && !AllSpace(spec.bridgeCidr) ==>
              (Validate(spec).None? <==> forall i :: 0 <= i < |MountTags(spec)| ==> IsName(MountTags(spec)[i]))
    ensures !AllSpace(spec.hostname) && !AllSpace(spec.bridgeCidr) && Validate(spec).Some? ==>
              exists k :: IsFirstBadTag(MountTags(spec), k) && Validate(spec) == ValidateMountTag(MountTags(spec)[k])
  {
    hide IsBlank, ValidateMountTag, IsName, AllSpace;
    assert AllSpace(spec.hostname) <==> IsBlank(spec.hostname) by { WhiteIsBlank(spec.hostname); }
    assert AllSpace(spec.bridgeCidr) <==> IsBlank(spec.bridgeCidr) by { WhiteIsBlank(spec.bridgeCidr); }
    forall i | 0 <= i < |MountTags(spec)|
      ensures ValidateMountTag(MountTags(spec)[i]).None? <==> IsName(MountTags(spec)[i])
    {
      ValidTagIs(MountTags(spec)[i]);
    }
    TagsObjection(spec);
  }

  lemma WhiteIsBlank(s: string)
    ensures AllSpace(s) <==> IsBlank(s)
  {
    hide IsBlank;
    BlankIs(s);
  }

  /** The objection to the tags is that to the first tag in order that is no name. */
  lemma TagsObjection(spec: ProvisionSpec)
    ensures var tags := MountTags(spec);
            var objection := OrElse(FirstOf(spec.mounts, MountObjection()),
                                    if spec.stateTag.Some? then ValidateMountTag(spec.stateTag.value) else None);
            && (objection.None? <==> forall i :: 0 <= i < |tags| ==> IsName(tags[i]))
            && (objection.Some? ==> exists k :: IsFirstBadTag(tags, k) && objection == ValidateMountTag(tags[k]))
            && (objection.Some? ==> objection.value.EmptyMountTag? || objection.value.InvalidMountTag?)
  {
    var tags, n, f := MountTags(spec), |spec.mounts|, MountObjection();
    hide ValidateMountTag, IsName;
    forall i | 0 <= i < n ensures f(spec.mounts[i]) == ValidateMountTag(tags[i]) {
    }
    forall i | 0 <= i < |tags|
      ensures ValidateMountTag(tags[i]) in {None, Some(EmptyMountTag), Some(InvalidMountTag(tags[i]))}
      ensures ValidateMountTag(tags[i]).None? <==> IsName(tags[i])
    {
      TagObjectionIs(tags[i]);
    }
    FirstOfNone(spec.mounts, f);
    if FirstOf(spec.mounts, f).Some? {
      var k := FirstOfExists(spec.mounts, f);
      assert IsFirstBadTag(tags, k);
    } else {
      forall i | 0 <= i < n ensures IsName(tags[i]) {
        assert f(spec.mounts[i]).None?;
      }
      if spec.stateTag.Some? && !IsName(spec.stateTag.value) {
        assert tags[n] == spec.stateTag.value;
        assert IsFirstBadTag(tags, n);
      }
      assert spec.stateTag.Some? ==> tags[n] == spec.stateTag.value;
    }
  }

  /** An invalid spec has no metadata either, for the same reason. */
  lemma MetaDataIsValidated(spec: ProvisionSpec)
    ensures MetaData(spec).Err? <==> Validate(spec).Some?
    ensures MetaData(spec).Err? ==> Some(MetaData(spec).error) == Validate(spec)
  {
    hide Validate;
  }

  // ---------- readable payloads ----------

  lemma {:induction false} PlainLines(s: string)
    requires forall i :: 0 <= i < |s| ==> s[i] == '\n' || IsText(s[i])
    ensures AllTextLines(Lines(s))
    decreases |s|
  {
    hide IsText;
    if s != [] && !Free(s, '\n') {
      var line, rest := CutLine(s);
      assert forall i :: 0 <= i < |line| ==> line[i] == s[i];
      assert forall i :: 0 <= i < |rest| ==> rest[i] == s[|line| + 1 + i];
      PlainLines(rest);
      LinesCons(line, rest);
    }
  }

  /** Printable lines of which the first is not empty and does not start with a blank are readable. */
  lemma PlainPayloadIsReadable(payload: string)
    requires forall i :: 0 <= i < |payload| ==> payload[i] == '\n' || IsText(payload[i])
    requires payload != [] ==> payload[0] !in {' ', '\n'}
    ensures Readable(payload)
  {
    var s := TrimEnd(payload, {'\n'});
    PlainLines(s);
    if s != [] {
      assert s[0] == payload[0];
      FirstLineStarts(s);
    }
  }

  lemma FirstLineStarts(s: string)
    requires s != [] && s[0] !in {'\n', '\r'}
    ensures Lines(s) != [] && Lines(s)[0] != [] && Lines(s)[0][0] == s[0]
  {
    if !Free(s, '\n') {
      var line, rest := CutLine(s);
      LinesCons(line, rest);
      assert s[0] == (line + ['\n'])[0];
    }
  }

  /** With this payload the spec passes validation, and a YAML reader does not get it back. */
  predicate IsLost(spec: ProvisionSpec, payload: string) {
    var s := spec.(serverCertPem := payload);
    Validate(s).None? && ReadUserData(UserData(s), Yaml) != Some(Expected(s))
  }

  /** Validation does not look at payloads: unreadable ones pass and are lost. */
  lemma UnreadablePayloadIsLost(spec: ProvisionSpec, payload: string)
    requires Validate(spec).None? && !Readable(payload)
    ensures IsLost(spec, payload)
  {
    hide ReadUserData, UserData, Expected, Readable, IsBlank;
    UserDataReadsBack(spec.(serverCertPem := payload), Yaml);
  }

  /** A bare carriage return is a line break of its own. */
  lemma ReturnIsUnreadable(payload: string)
    requires Free(payload, '\n') && !Free(payload, '\r')
    ensures !Readable(payload)
  {
    LinesOfOne(payload);
    assert !AllText(BlockLines(payload)[0]);
  }

  /** A blank in front of the first line deepens the block. */
  lemma LeadingBlankIsUnreadable(payload: string)
    requires payload != [] && payload[0] == ' '
    ensures !Readable(payload)
  {
    var s := TrimEnd(payload, {'\n'});
    assert s != [] && s[0] == ' ';
    FirstLineStarts(s);
  }

  const FORGED := "x\r  - path: /etc/y"
  const INDENTED := " x\ny"

  lemma BothAreUnreadable()
    ensures !Readable(FORGED) && !Readable(INDENTED)
  {
    assert FORGED[1] == '\r' && Free(FORGED, '\n');
    assert INDENTED[0] == ' ';
    hide Readable;
    ReturnIsUnreadable(FORGED);
    LeadingBlankIsUnreadable(INDENTED);
  }

  lemma ForgedParts()
    ensures FORGED == "x" + ['\r'] + "  - path: /etc/y"
    ensures Free(FORGED, '\n') && AllText("x")
  {
  }

  lemma EntryEndsBlock(rest: string)
    ensures EndsBlock("  - path: /etc/y" + rest)
  {
    var text := "  - path: /etc/y" + rest;
    assert text[0] == text[1] == ' ' && text[2] == '-';
    assert AllSpaces(text[..2]);
  }

  lemma IndentedOne(n: nat, line: string)
    ensures Indented(n, [line]) == Spaces(n) + line + "\n"
  {
    assert [line][1..] == [];
    assert Indented(n, []) == [];
    assert Indented(n, [line]) == Spaces(n) + line + "\n" + Indented(n, [line][1..]);
  }

  lemma BlockOfOneLine(payload: string)
    requires payload != [] && Free(payload, '\n')
    ensures Block(INDENT, payload) == Spaces(INDENT) + payload + "\n"
  {
    assert TrimEnd(payload, {'\n'}) == payload;
    LinesOfOne(payload);
    IndentedOne(INDENT, payload);
  }

  /** The first of them ends its own block, and a file entry seems to follow. */
  lemma ForgedEndsItsBlock(rest: string)
    ensures ReadBlock(Block(INDENT, FORGED) + rest, Yaml) == Some((["x"], "  - path: /etc/y\n" + rest))
  {
    ForgedParts();
    var entry, tail := "  - path: /etc/y", "\n" + rest;
    assert entry + tail == entry + "\n" + rest;
    assert entry + "\n" == "  - path: /etc/y\n";
    var head := "x";
    assert head[0] != ' ';
    hide ReadBlock, EndsBlock, AllText, Block, Free, Spaces;
    EntryEndsBlock(tail);
    BlockOfOneLine(FORGED);
    ForgedRegroups(Spaces(INDENT), head, entry, rest);
    ReturnEndsBlock(head, entry + tail);
  }

  lemma ForgedRegroups(blanks: string, head: string, entry: string, rest: string)
    ensures blanks + (head + ['\r'] + entry) + "\n" + rest == blanks + head + ['\r'] + (entry + ("\n" + rest))
  {
  }

  /** Two payloads that pass validation in every valid spec and are lost on a YAML reader. */
  lemma ReadingBackCanFail(spec: ProvisionSpec)
    requires Validate(spec).None?
    ensures IsLost(spec, FORGED) && IsLost(spec, INDENTED)
  {
    hide *;
    BothAreUnreadable();
    UnreadablePayloadIsLost(spec, FORGED);
    UnreadablePayloadIsLost(spec, INDENTED);
  }

  // ---------- the preseed ----------

  /** The lines with `key` in front of the first. */
  function Prefixed(key: string, lines: seq<string>): seq<string> {
    if lines == [] then [] else [key + lines[0]] + lines[1..]
  }

  function AddressLines(cidr: string): seq<string> {
    Lines(cidr + "\n")
  }

  /** The lines of the preseed, whatever the bridge address holds. */
  function PreseedLines(cidr: string): seq<string> {
    TopLines() + (Prefixed(AddressKey(), AddressLines(cidr))
                  + (PoolLines() + ([SourceKey() + PoolSource()] + ProfileLines())))
  }

  /** The preseed around the text of its address lines. */
  function PreseedAround(text: string): string {
    Unlines(TopLines()) + (AddressKey() + text + PreseedRest())
  }

  lemma PreseedIsAround(cidr: string)
    ensures Preseed(cidr) == PreseedAround(cidr + "\n")
  {
    hide Unlines, AddressKey, PreseedRest;
    FiveParts(Unlines(TopLines()), AddressKey(), cidr, "\n", PreseedRest());
  }

  lemma FiveParts(a: string, b: string, c: string, d: string, e: string)
    ensures a + b + c + (d + e) == a + (b + (c + d) + e)
  {
  }

  lemma LinesOfKeyed(key: string, s: string, rest: string)
    requires AllText(key) && s != [] && s[|s| - 1] == '\n'
    ensures Lines(key + s + rest) == Prefixed(key, Lines(s)) + Lines(rest)
  {
    TextHasNoBreaks(key, Yaml);
    LinesAfter(key, s);
    LinesConcat(key + s, rest);
  }

  lemma LineOfText(line: string, rest: string)
    requires AllText(line)
    ensures Lines(line + "\n" + rest) == [line] + Lines(rest)
  {
    TextHasNoBreaks(line, Yaml);
    assert line + "\n" + rest == line + ['\n'] + rest;
    LinesCons(line, rest);
  }

  lemma LinesOfRest(pools: seq<string>, source: string, profiles: seq<string>)
    requires AllTextLines(pools) && AllTextLines(profiles) && AllText(source) && pools != [] && profiles != []
    ensures Lines(Unlines(pools) + (source + "\n" + Unlines(profiles))) == pools + ([source] + profiles)
  {
    hide Lines, Unlines, AllText, AllTextLines;
    TextLinesAreLines(pools);
    TextLinesAreLines(profiles);
    LineOfText(source, Unlines(profiles));
    LinesConcat(Unlines(pools), source + "\n" + Unlines(profiles));
  }

  lemma LinesOfParts(top: seq<string>, key: string, s: string, rest: string)
    requires AllTextLines(top) && AllText(key) && top != [] && s != [] && s[|s| - 1] == '\n'
    ensures Lines(Unlines(top) + (key + s + rest)) == top + (Prefixed(key, Lines(s)) + Lines(rest))
  {
    hide Lines, Unlines, AllText, AllTextLines, Prefixed;
    TextLinesAreLines(top);
    LinesOfKeyed(key, s, rest);
    LinesConcat(Unlines(top), key + s + rest);
  }

  lemma LinesOfPreseed(cidr: string)
    ensures Lines(Preseed(cidr)) == PreseedLines(cidr)
  {
    hide Lines, Unlines, AllText, AllTextLines, Prefixed, Preseed,
         TopLines, AddressKey, PoolLines, SourceKey, PoolSource, ProfileLines;
    TopLinesAreText();
    KeysAreText();
    PoolLinesAreText();
    ProfileLinesAreText();
    PreseedIsAround(cidr);
    LinesOfRest(PoolLines(), SourceKey() + PoolSource(), ProfileLines());
    LinesOfParts(TopLines(), AddressKey(), cidr + "\n", PreseedRest());
  }

  lemma KeepsEnd(a: string, b: string)
    requires |b| > 1
    ensures |a + b| > 1 && (a + b)[|a + b| - 1] == b[|b| - 1] && (a + b)[|a + b| - 2] == b[|b| - 2]
  {
  }

  lemma BlockLinesOfPreseed(cidr: string)
    ensures BlockLines(Preseed(cidr)) == PreseedLines(cidr)
  {
    hide Lines, Unlines, AllTextLines, PreseedLines, PreseedHead,
         PoolLines, SourceKey, PoolSource, ProfileLines, BlockLines, TrimEnd;
    ProfileLinesAreText();
    UnlinesEndsIn(ProfileLines());
    var source, end := SourceKey() + PoolSource() + "\n", Unlines(ProfileLines());
    KeepsEnd(source, end);
    KeepsEnd(Unlines(PoolLines()), source + end);
    KeepsEnd("\n", PreseedRest());
    KeepsEnd(PreseedHead() + cidr, "\n" + PreseedRest());
    BlockLinesAre(Preseed(cidr));
    LinesOfPreseed(cidr);
  }

  lemma PrefixedText(key: string, lines: seq<string>)
    requires AllText(key)
    ensures AllTextLines(Prefixed(key, lines)) <==> AllTextLines(lines)
  {
    hide IsText;
    var all := Prefixed(key, lines);
    if lines != [] {
      assert all[0] == key + lines[0];
      assert forall i :: 0 <= i < |lines[0]| ==> all[0][|key| + i] == lines[0][i];
      assert forall i :: 1 <= i < |lines| ==> all[i] == lines[i];
    }
  }

  lemma TextLinesConcat(xs: seq<string>, ys: seq<string>)
    ensures AllTextLines(xs + ys) <==> AllTextLines(xs) && AllTextLines(ys)
  {
    hide AllText;
    assert forall i :: 0 <= i < |xs| ==> (xs + ys)[i] == xs[i];
    assert forall i :: 0 <= i < |ys| ==> (xs + ys)[|xs| + i] == ys[i];
  }

  /** The preseed is readable exactly when the bridge address consists of printable lines. */
  lemma PreseedIsReadable(cidr: string)
    ensures Readable(Preseed(cidr)) <==> AllTextLines(AddressLines(cidr))
  {
    hide AllTextLines, AllText, AddressLines, Prefixed, Preseed, BlockLines,
         AddressKey, PoolLines, SourceKey, PoolSource, ProfileLines, TopLines;
    TopLinesAreText();
    KeysAreText();
    PoolLinesAreText();
    ProfileLinesAreText();
    BlockLinesOfPreseed(cidr);
    var address, source := Prefixed(AddressKey(), AddressLines(cidr)), SourceKey() + PoolSource();
    PrefixedText(AddressKey(), AddressLines(cidr));
    ConsText(source, ProfileLines());
    TextLinesConcat(PoolLines(), [source] + ProfileLines());
    TextLinesConcat(address, PoolLines() + ([source] + ProfileLines()));
    TextLinesConcat(TopLines(), address + (PoolLines() + ([source] + ProfileLines())));
    assert PreseedLines(cidr)[0] == "config:";
    assert StartsPlain(PreseedLines(cidr));
  }

  lemma UnlinesPrefixed(key: string, lines: seq<string>)
    requires lines != []
    ensures Unlines(Prefixed(key, lines)) == key + Unlines(lines)
  {
  }

  lemma UnlinesOfParts(top: seq<string>, key: string, lines: seq<string>, pools: seq<string>, source: string,
                       profiles: seq<string>)
    requires lines != []
    ensures Unlines(top + (Prefixed(key, lines) + (pools + ([source] + profiles)))) ==
            Unlines(top) + (key + Unlines(lines) + (Unlines(pools) + (source + "\n" + Unlines(profiles))))
  {
    hide Unlines, Prefixed;
    UnlinesCons(source, profiles);
    UnlinesConcat(pools, [source] + profiles);
    UnlinesPrefixed(key, lines);
    UnlinesConcat(Prefixed(key, lines), pools + ([source] + profiles));
    UnlinesConcat(top, Prefixed(key, lines) + (pools + ([source] + profiles)));
  }

  lemma AddressHasLines(cidr: string)
    ensures AddressLines(cidr) != []
  {
    assert (cidr + "\n")[|cidr|] == '\n';
  }

  lemma NormalisedPreseed(cidr: string)
    ensures Normalised(Preseed(cidr)) == PreseedAround(Unlines(AddressLines(cidr)))
  {
    hide Unlines, AddressLines, Prefixed, Preseed, BlockLines,
         TopLines, AddressKey, PoolLines, SourceKey, PoolSource, ProfileLines;
    BlockLinesOfPreseed(cidr);
    AddressHasLines(cidr);
    UnlinesOfParts(TopLines(), AddressKey(), AddressLines(cidr), PoolLines(), SourceKey() + PoolSource(),
                   ProfileLines());
  }

  lemma MiddleIsDetermined(h: string, k: string, x: string, y: string, r: string)
    ensures h + (k + x + r) == h + (k + y + r) <==> x == y
  {
    if h + (k + x + r) == h + (k + y + r) {
      assert |x| == |y|;
      var n := |h| + |k|;
      assert (h + (k + x + r))[n..n + |x|] == x;
      assert (h + (k + y + r))[n..n + |y|] == y;
    }
  }

  /**
   The preseed reads back unchanged exactly when the line of the bridge address holds
   no carriage return in front of a line feed.
   */
  lemma PreseedIsNormal(cidr: string)
    ensures Normalised(Preseed(cidr)) == Preseed(cidr) <==> !HoldsReturnFeed(cidr + "\n")
  {
    hide Normalised, Preseed, Unlines, Lines, PreseedRest, TopLines, AddressKey, HoldsReturnFeed;
    NormalisedPreseed(cidr);
    PreseedIsAround(cidr);
    UnlinesUndoesLines(cidr + "\n");
    MiddleIsDetermined(Unlines(TopLines()), AddressKey(), Unlines(AddressLines(cidr)), cidr + "\n", PreseedRest());
  }

  /** Two preseeds read back alike exactly when the lines of their bridge addresses agree. */
  lemma PreseedShowsAddress(c: string, d: string)
    ensures Normalised(Preseed(c)) == Normalised(Preseed(d)) <==> AddressLines(c) == AddressLines(d)
  {
    hide Normalised, Preseed, Unlines, PreseedRest, TopLines, AddressKey, Lines;
    NormalisedPreseed(c);
    NormalisedPreseed(d);
    MiddleIsDetermined(Unlines(TopLines()), AddressKey(), Unlines(AddressLines(c)), Unlines(AddressLines(d)),
                       PreseedRest());
    if Unlines(AddressLines(c)) == Unlines(AddressLines(d)) {
      UnlinesInjective(AddressLines(c), AddressLines(d));
    }
  }

  /** Addresses without a carriage return in front of a line feed have the same lines exactly when they are equal. */
  lemma AddressLinesShowAddress(c: string, d: string)
    requires !HoldsReturnFeed(c + "\n") && !HoldsReturnFeed(d + "\n")
    ensures AddressLines(c) == AddressLines(d) <==> c == d
  {
    hide Lines, Unlines, HoldsReturnFeed;
    UnlinesUndoesLines(c + "\n");
    UnlinesUndoesLines(d + "\n");
    if AddressLines(c) == AddressLines(d) {
      assert (c + "\n")[..|c|] == c && (d + "\n")[..|d|] == d;
      assert c + "\n" == d + "\n";
    }
  }

  // ---------- the storage pool ----------

  /** What follows the key on the last line that starts with it. */
  function LastAfter(lines: seq<string>, key: string): Option<string> {
    if lines == [] then None
    else OrElse(StripPrefix(lines[|lines| - 1], key), LastAfter(lines[..|lines| - 1], key))
  }

  /** The device a preseed names as the source of its storage pool. */
  function StorageSource(preseed: string): Option<string> {
    LastAfter(Lines(preseed), SourceKey())
  }

  lemma {:induction false} LastAfterConcat(xs: seq<string>, ys: seq<string>, key: string)
    ensures LastAfter(xs + ys, key) == OrElse(LastAfter(ys, key), LastAfter(xs, key))
  {
    if ys == [] {
      assert xs + ys == xs;
    } else {
      var n := |ys| - 1;
      assert (xs + ys)[..|xs + ys| - 1] == xs + ys[..n];
      LastAfterConcat(xs, ys[..n], key);
    }
  }

  lemma {:induction false} NoneAfter(lines: seq<string>, key: string)
    requires forall i :: 0 <= i < |lines| ==> !(key <= lines[i])
    ensures LastAfter(lines, key) == None
  {
    if lines != [] {
      NoneAfter(lines[..|lines| - 1], key);
    }
  }

  lemma ProfilesNameNoSource()
    ensures LastAfter(ProfileLines(), SourceKey()) == None
  {
    var key, l := SourceKey(), ProfileLines();
    assert key[0] == key[2] == key[4] == ' ' && key[6] == 's';
    assert l[0][0] == 'p' && l[1][2] == '-' && l[2][4] == 'd' && l[3][6] == 'e';
    assert l[4][6] == l[5][6] == l[6][6] == ' ';
    hide SourceKey;
    assert forall i :: 0 <= i < 7 ==> !(key <= l[i]);
    NoneAfter(l, key);
  }

  lemma SourceComesLast(before: seq<string>, key: string, source: string, after: seq<string>)
    requires LastAfter(after, key) == None
    ensures LastAfter(before + ([key + source] + after), key) == Some(source)
  {
    LastAfterConcat([key + source], after, key);
    LastAfterConcat(before, [key + source] + after, key);
    assert StripPrefix(key + source, key) == Some(source);
    assert LastAfter([key + source], key) == Some(source);
  }

  /** Whatever the bridge address, the preseed that is read back names the pool's device. */
  lemma PreseedNamesPool(cidr: string)
    ensures StorageSource(Normalised(Preseed(cidr))) == Some(PoolSource())
  {
    hide Lines, Unlines, AllText, AllTextLines, Normalised, Preseed, AddressLines, LastAfter,
         TopLines, AddressKey, PoolLines, SourceKey, PoolSource, ProfileLines;
    PoolLinesAreText();
    KeysAreText();
    ProfileLinesAreText();
    ProfilesNameNoSource();
    NormalisedPreseed(cidr);
    AddressHasLines(cidr);
    UnlinesEndsLine(AddressLines(cidr));
    var before := Unlines(TopLines()) + (AddressKey() + Unlines(AddressLines(cidr)));
    assert Normalised(Preseed(cidr)) == before + PreseedRest();
    LinesConcat(before, PreseedRest());
    LinesOfRest(PoolLines(), SourceKey() + PoolSource(), ProfileLines());
    assert Lines(before) + (PoolLines() + ([SourceKey() + PoolSource()] + ProfileLines())) ==
           Lines(before) + PoolLines() + ([SourceKey() + PoolSource()] + ProfileLines());
    SourceComesLast(Lines(before) + PoolLines(), SourceKey(), PoolSource(), ProfileLines());
  }

  // ---------- the values of single keys ----------

  /** The lines of a preseed whose bridge address is one line. */
  function PreseedShape(cidr: string): seq<string> {
    TopLines() + ([AddressKey() + cidr] + (PoolLines() + ([SourceKey() + PoolSource()] + ProfileLines())))
  }

  lemma OneAddressLine(cidr: string)
    requires NoBreaks(cidr, Yaml)
    ensures PreseedLines(cidr) == PreseedShape(cidr)
  {
    hide Lines, TopLines, AddressKey, PoolLines, SourceKey, PoolSource, ProfileLines;
    assert cidr + "\n" == cidr + ['\n'] + [];
    LinesCons(cidr, []);
    LinesOfNothing();
    assert AddressLines(cidr) == [cidr];
    assert Prefixed(AddressKey(), [cidr]) == [AddressKey() + cidr];
  }

  lemma TextLinesHaveNoBreaks(lines: seq<string>, i: nat)
    requires AllTextLines(lines) && i < |lines|
    ensures NoBreaks(lines[i], Yaml)
  {
    TextHasNoBreaks(lines[i], Yaml);
  }

  lemma ShapeHasNoBreaks(cidr: string)
    requires NoBreaks(cidr, Yaml)
    ensures forall i :: 0 <= i < |PreseedShape(cidr)| ==> NoBreaks(PreseedShape(cidr)[i], Yaml)
  {
    hide NoBreaks, AllText, TopLines, AddressKey, PoolLines, SourceKey, PoolSource, ProfileLines;
    TopLinesAreText();
    KeysAreText();
    PoolLinesAreText();
    ProfileLinesAreText();
    TextHasNoBreaks(AddressKey(), Yaml);
    NoBreaksInParts(AddressKey(), cidr, Yaml);
    ConsText(SourceKey() + PoolSource(), ProfileLines());
    TextLinesConcat(PoolLines(), [SourceKey() + PoolSource()] + ProfileLines());
    var after := PoolLines() + ([SourceKey() + PoolSource()] + ProfileLines());
    forall i | 0 <= i < |PreseedShape(cidr)| ensures NoBreaks(PreseedShape(cidr)[i], Yaml) {
      var top := |TopLines()|;
      if i < top {
        TextLinesHaveNoBreaks(TopLines(), i);
      } else if i > top {
        TextLinesHaveNoBreaks(after, i - top - 1);
      }
    }
  }

  lemma ShapeIsRead(cidr: string)
    requires NoBreaks(cidr, Yaml)
    ensures YamlLines(Normalised(Preseed(cidr))) == PreseedShape(cidr)
  {
    hide NoBreaks, Preseed, PreseedLines, PreseedShape, BlockLines;
    BlockLinesOfPreseed(cidr);
    OneAddressLine(cidr);
    ShapeHasNoBreaks(cidr);
    YamlLinesOfUnlines(PreseedShape(cidr));
  }

  lemma NoOtherAddress()
    ensures ValuesAt(TopLines(), AddressKey()) == [] && ValuesAt(PoolLines(), AddressKey()) == []
  {
    var key, t, p := AddressKey(), TopLines(), PoolLines();
    assert key[0] == key[2] == key[4] == ' ' && key[9] == '4' && key[11] == 'a';
    assert t[0][0] == 'c' && t[1][2] == 'c' && t[2][0] == 'n' && t[3][2] == '-' && t[4][4] == 't' && t[5][4] == 'c';
    assert p[0][11] == 'n' && p[1][9] == '6' && p[2][0] == 's' && p[3][2] == '-' && p[4][4] == 'd' && p[5][4] == 'c';
    hide AddressKey;
    assert forall i :: 0 <= i < 6 ==> !(key <= t[i]);
    assert forall i :: 0 <= i < 6 ==> !(key <= p[i]);
    NoValuesAt(t, key);
    NoValuesAt(p, key);
  }

  lemma NoAddressAtTheEnd()
    ensures ValuesAt([SourceKey() + PoolSource()] + ProfileLines(), AddressKey()) == []
  {
    var key, s, l := AddressKey(), SourceKey() + PoolSource(), ProfileLines();
    assert key[0] == key[2] == key[4] == ' ' && key[6] == 'i';
    assert s[6] == 's' && l[0][0] == 'p' && l[1][2] == '-' && l[2][4] == 'd' && l[3][6] == 'e';
    assert l[4][6] == l[5][6] == l[6][6] == ' ';
    hide AddressKey, SourceKey, PoolSource;
    var all := [s] + l;
    assert forall i :: 0 <= i < 8 ==> !(key <= all[i]);
    NoValuesAt(all, key);
  }

  lemma ShapeValues(cidr: string)
    ensures ValuesAt(PreseedShape(cidr), AddressKey()) == [cidr]
  {
    hide ValuesAt, TopLines, AddressKey, PoolLines, SourceKey, PoolSource, ProfileLines;
    NoOtherAddress();
    NoAddressAtTheEnd();
    ValueAtOne(AddressKey(), cidr);
    var end := [SourceKey() + PoolSource()] + ProfileLines();
    ValuesAtConcat(PoolLines(), end, AddressKey());
    ValuesAtConcat([AddressKey() + cidr], PoolLines() + end, AddressKey());
    ValuesAtConcat(TopLines(), [AddressKey() + cidr] + (PoolLines() + end), AddressKey());
  }

  /**
   A line reader gets exactly the bridge address out of the preseed that is read back,
   and the preseed keeps the lines of the template, exactly when the address holds no
   line break; otherwise it adds lines of its own.
   */
  lemma PreseedShowsOneAddress(cidr: string)
    ensures ValuesAt(YamlLines(Normalised(Preseed(cidr))), AddressKey()) == [cidr] <==> NoBreaks(cidr, Yaml)
    ensures YamlLines(Normalised(Preseed(cidr))) == PreseedShape(cidr) <==> NoBreaks(cidr, Yaml)
  {
    var lines := YamlLines(Normalised(Preseed(cidr)));
    hide NoBreaks, YamlLines, Normalised, Preseed, PreseedShape, ValuesAt, AddressKey;
    if NoBreaks(cidr, Yaml) {
      ShapeIsRead(cidr);
      ShapeValues(cidr);
    }
    ValuesHaveNoBreaks(lines, AddressKey());
    ShapeValues(cidr);
    if ValuesAt(lines, AddressKey()) == [cidr] {
      assert cidr in ValuesAt(lines, AddressKey());
    }
  }

  /** The fourth file of a document, which holds the preseed. */
  function PreseedIn(files: seq<File>): Option<string> {
    if |files| != 4 then None else Some(files[3].content)
  }

  function ReadPreseed(userData: string, mode: Mode): Option<string> {
    match ReadUserData(userData, mode)
    case None => None
    case Some(doc) => PreseedIn(doc.files)
  }

  lemma PreseedReadsBack(spec: ProvisionSpec, mode: Mode)
    requires Validate(spec).None? && (mode.Yaml? ==> PayloadsReadable(spec))
    ensures ReadPreseed(UserData(spec), mode) == Some(Normalised(Preseed(spec.bridgeCidr)))
  {
    hide ReadUserData, UserData, Validate, PayloadsReadable, Preseed, Normalised, MountTags, Tags, MountAll;
    UserDataReadsBack(spec, mode);
  }

  /** The addresses that a line reader gets out of the fourth file of a document. */
  function DocumentAddresses(userData: string): seq<string> {
    match ReadPreseed(userData, Yaml)
    case None => []
    case Some(preseed) => ValuesAt(YamlLines(preseed), AddressKey())
  }

  /** The same through the whole document. */
  lemma DocumentShowsOneAddress(spec: ProvisionSpec)
    requires Validate(spec).None? && PayloadsReadable(spec)
    ensures DocumentAddresses(UserData(spec)) == [spec.bridgeCidr] <==> NoBreaks(spec.bridgeCidr, Yaml)
  {
    hide ReadPreseed, UserData, Validate, PayloadsReadable, NoBreaks, YamlLines, Normalised, Preseed, ValuesAt,
         AddressKey;
    PreseedReadsBack(spec, Yaml);
    PreseedShowsOneAddress(spec.bridgeCidr);
  }

  const INSTANCE_KEY := "instance-id: "
  const HOST_KEY := "local-hostname: "
  const INSTANCE_PREFIX := "malleus-"

  function MetaDataShape(hostname: string): seq<string> {
    [INSTANCE_KEY + (INSTANCE_PREFIX + hostname), HOST_KEY + hostname]
  }

  lemma MetaDataIs(spec: ProvisionSpec)
    requires Validate(spec).None?
    ensures MetaData(spec) == Ok(Unlines(MetaDataShape(spec.hostname)))
  {
    hide Validate;
    var h := spec.hostname;
    UnlinesOfTwo(INSTANCE_KEY + (INSTANCE_PREFIX + h), HOST_KEY + h);
    assert "instance-id: malleus-" == INSTANCE_KEY + INSTANCE_PREFIX;
    assert "\nlocal-hostname: " == "\n" + HOST_KEY;
    MetaDataRegroups(INSTANCE_KEY, INSTANCE_PREFIX, h, HOST_KEY);
  }

  lemma UnlinesOfTwo(x: string, y: string)
    ensures Unlines([x, y]) == x + "\n" + (y + "\n" + [])
  {
    assert [x, y] == [x] + [y] && [y] == [y] + [];
    UnlinesCons(x, [y]);
    UnlinesCons(y, []);
    NoLines();
  }

  lemma MetaDataRegroups(a: string, b: string, h: string, k: string)
    ensures (a + b) + h + ("\n" + k) + h + "\n" == a + (b + h) + "\n" + (k + h + "\n" + [])
  {
  }

  lemma MetaDataValues(hostname: string)
    ensures ValuesAt(MetaDataShape(hostname), HOST_KEY) == [hostname]
    ensures ValuesAt(MetaDataShape(hostname), INSTANCE_KEY) == [INSTANCE_PREFIX + hostname]
  {
    var instance, host := INSTANCE_KEY + (INSTANCE_PREFIX + hostname), HOST_KEY + hostname;
    assert instance[0] == INSTANCE_KEY[0] == 'i' && host[0] == HOST_KEY[0] == 'l';
    NoValuesAt([instance], HOST_KEY);
    NoValuesAt([host], INSTANCE_KEY);
    ValueAtOne(HOST_KEY, hostname);
    ValueAtOne(INSTANCE_KEY, INSTANCE_PREFIX + hostname);
    assert MetaDataShape(hostname) == [instance] + [host];
    hide ValuesAt;
    ValuesAtConcat([instance], [host], HOST_KEY);
    ValuesAtConcat([instance], [host], INSTANCE_KEY);
  }

  /**
   A line reader gets exactly the host name out of the metadata, and no line besides
   the two keys, exactly when the host name holds no line break.
   */
  lemma MetaDataShowsHostname(spec: ProvisionSpec)
    requires Validate(spec).None?
    ensures MetaData(spec).Ok?
    ensures ValuesAt(YamlLines(MetaData(spec).value), HOST_KEY) == [spec.hostname] <==> NoBreaks(spec.hostname, Yaml)
    ensures YamlLines(MetaData(spec).value) == MetaDataShape(spec.hostname) <==> NoBreaks(spec.hostname, Yaml)
  {
    var h := spec.hostname;
    MetaDataIs(spec);
    var lines := YamlLines(Unlines(MetaDataShape(h)));
    MetaDataValues(h);
    ShapeBreaks(h);
    hide MetaData, NoBreaks, YamlLines, ValuesAt, Unlines, MetaDataShape, Validate;
    if NoBreaks(h, Yaml) {
      YamlLinesOfUnlines(MetaDataShape(h));
    }
    ValuesHaveNoBreaks(lines, HOST_KEY);
    if ValuesAt(lines, HOST_KEY) == [h] {
      assert h in ValuesAt(lines, HOST_KEY);
    }
  }

  lemma ShapeBreaks(hostname: string)
    ensures NoBreaks(hostname, Yaml) ==>
              forall i :: 0 <= i < |MetaDataShape(hostname)| ==> NoBreaks(MetaDataShape(hostname)[i], Yaml)
  {
    assert NoBreaks(INSTANCE_KEY, Yaml) && NoBreaks(INSTANCE_PREFIX, Yaml) && NoBreaks(HOST_KEY, Yaml);
    hide NoBreaks;
    NoBreaksInParts(INSTANCE_PREFIX, hostname, Yaml);
    NoBreaksInParts(INSTANCE_KEY, INSTANCE_PREFIX + hostname, Yaml);
    NoBreaksInParts(HOST_KEY, hostname, Yaml);
  }

  // ---------- the document shows everything but the host name ----------

  ghost predicate SameUpToHostname(s: ProvisionSpec, t: ProvisionSpec) {
    && s.mounts == t.mounts
    && s.stateTag == t.stateTag
    && AddressLines(s.bridgeCidr) == AddressLines(t.bridgeCidr)
    && Normalised(s.serverCertPem) == Normalised(t.serverCertPem)
    && Normalised(s.serverKeyPem) == Normalised(t.serverKeyPem)
    && Normalised(s.clientCertPem) == Normalised(t.clientCertPem)
  }

  lemma TagsDetermineMounts(s: ProvisionSpec, t: ProvisionSpec)
    requires Tags(s.mounts) == Tags(t.mounts)
    ensures s.mounts == t.mounts
  {
    var a, b := s.mounts, t.mounts;
    assert |a| == |b|;
    forall i | 0 <= i < |a| ensures a[i] == b[i] {
      assert Tags(a)[i] == a[i].tag && Tags(b)[i] == b[i].tag;
    }
  }

  lemma SameExpectedMeansSame(s: ProvisionSpec, t: ProvisionSpec)
    requires Expected(s) == Expected(t)
    ensures SameUpToHostname(s, t)
  {
    hide Normalised, Preseed, ExpectedMounts, Tags, AddressLines;
    var x, y := Expected(s).files, Expected(t).files;
    assert x[0].content == y[0].content && x[1].content == y[1].content;
    assert x[2].content == y[2].content && x[3].content == y[3].content;
    PreseedShowsAddress(s.bridgeCidr, t.bridgeCidr);
    assert Expected(s).run.value.dirs == Expected(t).run.value.dirs;
    TagsDetermineMounts(s, t);
  }

  lemma SameSpecsRenderAlike(s: ProvisionSpec, t: ProvisionSpec)
    requires SameUpToHostname(s, t)
    ensures UserData(s) == UserData(t)
  {
    BlockShowsNormalised(s.serverCertPem, t.serverCertPem);
    BlockShowsNormalised(s.serverKeyPem, t.serverKeyPem);
    BlockShowsNormalised(s.clientCertPem, t.clientCertPem);
    PreseedShowsAddress(s.bridgeCidr, t.bridgeCidr);
    BlockShowsNormalised(Preseed(s.bridgeCidr), Preseed(t.bridgeCidr));
    hide BlockLines, AddressLines, Indented, FileHeader, Preseed, Preamble, MountsText, MountTags, MkdirLines,
         RunHead, LoopHead, StateScript, VsockScript, Install, Normalised;
    assert FilesText(s) == FilesText(t);
    assert MountTags(s) == MountTags(t) by { TagsAgree(s, t); }
    assert RunText(s) == RunText(t);
  }

  lemma TagsAgree(s: ProvisionSpec, t: ProvisionSpec)
    requires s.mounts == t.mounts && s.stateTag == t.stateTag
    ensures MountTags(s) == MountTags(t)
  {
  }

  /**
   Two valid specs render to the same document exactly when they agree on
   everything but the host name and the trailing line feeds of the payloads.
   */
  lemma RenderingIsInjective(s: ProvisionSpec, t: ProvisionSpec)
    requires Validate(s).None? && Validate(t).None?
    ensures UserData(s) == UserData(t) <==> SameUpToHostname(s, t)
  {
    hide *;
    UserDataReadsBack(s, Framed);
    UserDataReadsBack(t, Framed);
    if UserData(s) == UserData(t) {
      SameExpectedMeansSame(s, t);
    }
    if SameUpToHostname(s, t) {
      SameSpecsRenderAlike(s, t);
    }
  }

  /** The spec with its state share listed among the mounts instead. */
  function Moved(s: ProvisionSpec, tag: string): ProvisionSpec {
    s.(mounts := s.mounts + [MountSpec(tag)], stateTag := None)
  }

  lemma MovedIsValid(s: ProvisionSpec, tag: string)
    requires Validate(s).None? && s.stateTag == Some(tag)
    ensures Validate(Moved(s, tag)).None? && MountTags(Moved(s, tag)) == MountTags(s)
  {
    hide IsBlank, ValidateMountTag;
    FirstOfConcat(s.mounts, [MountSpec(tag)], MountObjection());
    FirstOfOne(MountSpec(tag), MountObjection());
    assert MountTags(Moved(s, tag)) == MountTags(s);
  }

  lemma MovedDiffers(s: ProvisionSpec, tag: string)
    requires s.stateTag == Some(tag)
    ensures Expected(Moved(s, tag)) != Expected(s)
  {
    hide Read, Written, ExpectedMounts;
  }

  /** Listing the state share among the mounts mounts the same tags, but changes the document. */
  lemma MovingTheStateTagShows(s: ProvisionSpec, tag: string)
    requires Validate(s).None? && s.stateTag == Some(tag)
    ensures MountTags(Moved(s, tag)) == MountTags(s) && UserData(Moved(s, tag)) != UserData(s)
  {
    hide *;
    MovedIsValid(s, tag);
    MovedDiffers(s, tag);
    UserDataReadsBack(s, Framed);
    UserDataReadsBack(Moved(s, tag), Framed);
  }

  lemma TwiceShown(p: string, x: string, y: string, m: string, e: string)
    requires p + x + m + x + e == p + y + m + y + e
    ensures x == y
  {
    assert |x| == |y|;
    assert (p + x + m + x + e)[|p|..|p| + |x|] == x;
    assert (p + y + m + y + e)[|p|..|p| + |y|] == y;
  }

  /** The metadata shows the host name, so both documents together show the whole spec. */
  lemma BothDocumentsShowTheSpec(s: ProvisionSpec, t: ProvisionSpec)
    requires Validate(s).None? && Validate(t).None?
    ensures UserData(s) == UserData(t) && MetaData(s) == MetaData(t) <==>
            SameUpToHostname(s, t) && s.hostname == t.hostname
  {
    hide UserData, SameUpToHostname, Validate;
    RenderingIsInjective(s, t);
    if MetaData(s) == MetaData(t) {
      TwiceShown("instance-id: malleus-", s.hostname, t.hostname, "\nlocal-hostname: ", "\n");
    }
  }

  // ---------- the document fits together ----------

  lemma PreseedCommandIs()
    ensures PreseedCommand() == "  - [sh, -c, \"incus admin init --preseed < " + "/var/lib/malleus/preseed.yaml"
                                + "\"]\n"
  {
  }

  lemma TrustCommandIs()
    ensures TrustCommand() == "  - [incus, config, trust, add-certificate, " + "/var/lib/malleus/client.crt"
                              + ", --name, malleus-client, --type, client]\n"
  {
  }

  /** After the packages, Incus is initialised from the preseed the document writes, and trusts the client it writes. */
  lemma CommandsUseWrittenFiles(spec: ProvisionSpec)
    ensures var (_, _, client, preseed) := Written(spec);
            Install() == InstallPackages()
                         + ("  - [sh, -c, \"incus admin init --preseed < " + preseed.path + "\"]\n")
                         + ("  - [incus, config, trust, add-certificate, " + client.path
                            + ", --name, malleus-client, --type, client]\n")
  {
    hide InstallPackages, PreseedCommand, TrustCommand, Preseed;
    PreseedCommandIs();
    TrustCommandIs();
  }

  /** What cloud-init recognises its documents by. */
  lemma DocumentStarts(spec: ProvisionSpec)
    ensures "#cloud-config\n" <= UserData(spec)
  {
    HeadStarts();
    hide Head, Preamble, FilesText, MountsText, RunText, MountTags;
    PreambleStarts();
    PrefixIsKept("#cloud-config\n", Preamble(), FilesText(spec));
    PrefixIsKept("#cloud-config\n", Preamble() + FilesText(spec), MountsText(MountTags(spec)));
    PrefixIsKept("#cloud-config\n", Preamble() + FilesText(spec) + MountsText(MountTags(spec)), RunText(spec));
  }

  lemma HeadStarts()
    ensures "#cloud-config\n" <= Head()
  {
    var first, second := "#cloud-config\n", "output: {all: '| tee /dev/hvc0'}\n";
    assert Head() == first + second;
    PrefixIsKept(first, first, second);
  }

  lemma PreambleStarts()
    requires "#cloud-config\n" <= Head()
    ensures "#cloud-config\n" <= Preamble()
  {
    hide Head, NetworkConfig, Block, Boot;
    PrefixIsKept("#cloud-config\n", Head(), "network:\n");
    PrefixIsKept("#cloud-config\n", Head() + "network:\n", Block(2, NetworkConfig()));
    PrefixIsKept("#cloud-config\n", Head() + "network:\n" + Block(2, NetworkConfig()), Boot());
  }

  lemma PrefixIsKept(prefix: string, a: string, b: string)
    requires prefix <= a
    ensures prefix <= a + b
  {
  }
}
