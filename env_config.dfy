/**
 * The service-credential parser (app/utils/env_config.go): a string of
 * `id:secret` pairs separated by `|` becomes a map from id to secret.
 */
module EnvConfig {
  import opened Wrappers
  import opened Strings

  /**
   * The entry one `|`-separated segment contributes: the id is the text
   * before its first `:`, the secret the text from there up to the next `:`
   * or the end; anything after a second `:` is dropped.
   */
  function SegmentEntry(segment: string): (entry: Option<(string, string)>)
    ensures entry.Some? <==> ':' in segment
    ensures entry.Some? ==> ':' !in entry.value.0 && ':' !in entry.value.1
    ensures entry.Some? ==> entry.value.0 == segment[..IndexOf(segment, ':')]
    ensures entry.Some? ==>
              var (id, secret) := entry.value;
              |id| + 1 + |secret| <= |segment| && segment[|id|] == ':' &&
              segment[|id| + 1..|id| + 1 + |secret|] == secret &&
              (|id| + 1 + |secret| == |segment| || segment[|id| + 1 + |secret|] == ':')
  {
    var confPair := Split(segment, ':');
    SplitHead(segment, ':');
    if |confPair| < 2 then None
    else
      SplitFirstTwo(segment, ':');
      Some((confPair[0], confPair[1]))
  }

  /** The map after processing `segments` in order into `m`. */
  function AddSegments(m: map<string, string>, segments: seq<string>): map<string, string>
  {
    if segments == [] then m
    else
      var m' := AddSegments(m, segments[..|segments| - 1]);
      match SegmentEntry(segments[|segments| - 1])
      case None => m'
      case Some((id, secret)) => m'[id := secret]
  }

  /** The credential map `GetMapEnvConfig` builds from `envVarValue`; no key or secret in it holds `|` or `:`. */
  function CredentialMap(envVarValue: string): (m: map<string, string>)
    ensures forall id :: id in m ==> '|' !in id && ':' !in id && '|' !in m[id] && ':' !in m[id]
  {
    NoSeparatorsInEntries(Split(envVarValue, '|'));
    AddSegments(map[], Split(envVarValue, '|'))
  }

  /** `GetMapEnvConfig`: one map entry per segment that has a `:`, in segment order. */
  method GetMapEnvConfig(envVarValue: string) returns (res: map<string, string>)
    ensures res == CredentialMap(envVarValue)
  {
    res := map[];
    var segments := Split(envVarValue, '|');
    for i := 0 to |segments|
      invariant res == AddSegments(map[], segments[..i])
    {
      assert segments[..i + 1][..i] == segments[..i];
      var confPair := Split(segments[i], ':');
      if |confPair| < 2 {
        continue;
      }
      res := res[confPair[0] := confPair[1]];
    }
    assert segments[..|segments|] == segments;
  }

  /** No key or secret of a parsed map contains `|` or `:`. */
  lemma {:induction false} NoSeparatorsInEntries(segments: seq<string>)
    requires forall i :: 0 <= i < |segments| ==> '|' !in segments[i]
    ensures forall id :: id in AddSegments(map[], segments) ==>
              '|' !in id && ':' !in id && '|' !in AddSegments(map[], segments)[id] && ':' !in AddSegments(map[], segments)[id]
  {
    if segments != [] {
      var last := segments[|segments| - 1];
      NoSeparatorsInEntries(segments[..|segments| - 1]);
      var pair := Split(last, ':');
      if |pair| >= 2 {
        SplitPartsInside(last, ':', '|');
      }
    }
  }

  /** A character absent from the text is absent from every piece of it. */
  lemma {:induction false} SplitPartsInside(s: string, sep: char, c: char)
    requires c !in s
    ensures forall i :: 0 <= i < |Split(s, sep)| ==> c !in Split(s, sep)[i]
    decreases |s|
  {
    IndexOfAbsent(s, sep);
    var k := IndexOf(s, sep);
    if k < |s| {
      assert forall j :: 0 <= j < k ==> s[..k][j] == s[j];
      SplitPartsInside(s[k + 1..], sep, c);
    }
  }

  /** The id of segment `i` is present and holds the secret of its last occurrence; a later segment overwrites an earlier one. */
  lemma {:induction false} LastSegmentWins(segments: seq<string>, i: nat)
    requires i < |segments| && SegmentEntry(segments[i]).Some?
    requires forall j :: i < j < |segments| && SegmentEntry(segments[j]).Some? ==>
               SegmentEntry(segments[j]).value.0 != SegmentEntry(segments[i]).value.0
    ensures SegmentEntry(segments[i]).value.0 in AddSegments(map[], segments)
    ensures AddSegments(map[], segments)[SegmentEntry(segments[i]).value.0] == SegmentEntry(segments[i]).value.1
  {
    if i < |segments| - 1 {
      LastSegmentWins(segments[..|segments| - 1], i);
    }
  }

  /** Only ids of segments with a `:` are present. */
  lemma {:induction false} OnlySegmentIds(segments: seq<string>, id: string)
    requires id in AddSegments(map[], segments)
    ensures exists i :: 0 <= i < |segments| && SegmentEntry(segments[i]).Some? && SegmentEntry(segments[i]).value.0 == id
  {
    var init := segments[..|segments| - 1];
    var last := segments[|segments| - 1];
    if SegmentEntry(last).Some? && SegmentEntry(last).value.0 == id {
      assert SegmentEntry(segments[|segments| - 1]).Some?;
    } else {
      OnlySegmentIds(init, id);
      var i :| 0 <= i < |init| && SegmentEntry(init[i]).Some? && SegmentEntry(init[i]).value.0 == id;
      assert segments[i] == init[i];
    }
  }

  /** The empty string holds no credentials. */
  lemma EmptyStringNoCredentials()
    ensures CredentialMap("") == map[]
  {
    assert Split("", '|') == [""];
  }

  /** An empty id is accepted: `:s` maps `""` to `s`. */
  lemma EmptyIdAccepted()
    ensures CredentialMap(":s") == map["" := "s"]
  {
    SplitJoin([":s"], '|');
    assert Join(["", "s"], ":") == ":s";
    SplitJoin(["", "s"], ':');
  }

  /** A text without `|` is a single segment: the map holds that segment's entry, if any. */
  lemma SingleSegment(segment: string)
    requires '|' !in segment
    ensures CredentialMap(segment) == match SegmentEntry(segment)
                                      case None => map[]
                                      case Some((id, secret)) => map[id := secret]
  {
    IndexOfAbsent(segment, '|');
    assert Split(segment, '|') == [segment];
    var segments: seq<string> := [segment];
    assert segments[..0] == [];
    assert AddSegments(map[], segments[..0]) == map[];
    assert CredentialMap(segment) == AddSegments(map[], segments);
  }

  /** In `id:secret:extra` the id is the text before the first `:` and the secret runs up to the second. */
  lemma SecondFieldSecret(id: string, secret: string, extra: string)
    requires ':' !in id && ':' !in secret
    ensures SegmentEntry(id + [':'] + (secret + [':'] + extra)) == Some((id, secret))
  {
    var tail := secret + [':'] + extra;
    var segment := id + [':'] + tail;
    FirstSeparator(id, ':', tail);
    var (id', secret') := SegmentEntry(segment).value;
    assert tail[..|secret'|] == secret' && tail[..|secret|] == secret && tail[|secret|] == ':';
    SeparatorFreePrefix(tail, ':', secret', secret);
  }

  /** Text after a second `:` is dropped: `id:secret:extra` maps `id` to `secret`. */
  lemma ThirdFieldDropped(id: string, secret: string, extra: string)
    requires ':' !in id && ':' !in secret
    requires '|' !in id + [':'] + (secret + [':'] + extra)
    ensures CredentialMap(id + [':'] + (secret + [':'] + extra)) == map[id := secret]
  {
    SecondFieldSecret(id, secret, extra);
    SingleSegment(id + [':'] + (secret + [':'] + extra));
  }

  /** `a:b:c` maps `a` to `b`. */
  lemma ThirdFieldDroppedExample()
    ensures CredentialMap("a:b:c") == map["a" := "b"]
  {
    assert "a:b:c" == "a" + [':'] + ("b" + [':'] + "c");
    ThirdFieldDropped("a", "b", "c");
  }

  /** Rendering pairs as `id:secret|id:secret|…` and parsing the result gives back the pairs, a later pair overriding an earlier one. */
  lemma RenderParse(pairs: seq<(string, string)>)
    requires forall i :: 0 <= i < |pairs| ==>
               '|' !in pairs[i].0 && ':' !in pairs[i].0 && '|' !in pairs[i].1 && ':' !in pairs[i].1
    ensures CredentialMap(Join(Render(pairs), "|")) == AddPairs(pairs)
  {
    if pairs == [] {
      assert Split("", '|') == [""];
    } else {
      var segs := Render(pairs);
      forall i | 0 <= i < |segs| ensures '|' !in segs[i] {
        JoinPair(pairs[i].0, pairs[i].1, ":");
      }
      SplitJoin(segs, '|');
      RenderedSegments(pairs);
    }
  }

  function Render(pairs: seq<(string, string)>): (segs: seq<string>)
    ensures |segs| == |pairs|
    ensures forall i :: 0 <= i < |pairs| ==> segs[i] == Join([pairs[i].0, pairs[i].1], ":")
  {
    if pairs == [] then []
    else Render(pairs[..|pairs| - 1]) + [Join([pairs[|pairs| - 1].0, pairs[|pairs| - 1].1], ":")]
  }

  function AddPairs(pairs: seq<(string, string)>): map<string, string>
  {
    if pairs == [] then map[]
    else AddPairs(pairs[..|pairs| - 1])[pairs[|pairs| - 1].0 := pairs[|pairs| - 1].1]
  }

  lemma {:induction false} RenderedSegments(pairs: seq<(string, string)>)
    requires forall i :: 0 <= i < |pairs| ==> ':' !in pairs[i].0 && ':' !in pairs[i].1
    ensures AddSegments(map[], Render(pairs)) == AddPairs(pairs)
  {
    if pairs != [] {
      var init := pairs[..|pairs| - 1];
      var (id, secret) := pairs[|pairs| - 1];
      RenderedSegments(init);
      assert Render(pairs)[..|pairs| - 1] == Render(init);
      PairEntry(id, secret);
    }
  }

  /** A rendered pair `id:secret` is read back as that pair. */
  lemma PairEntry(id: string, secret: string)
    requires ':' !in id && ':' !in secret
    ensures SegmentEntry(Join([id, secret], ":")) == Some((id, secret))
  {
    SplitJoin([id, secret], ':');
  }
}
