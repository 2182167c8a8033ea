/**
 * Tag cleaning in `get_file_metadata`: the probe's `format.tags` dictionary,
 * in its insertion order, becomes a map with lower-cased keys and cleaned
 * string values; non-string values are dropped.
 */
module Metadata {
  import opened Text
  import Sanitize

  /** A tag value as decoded from the probe's JSON. */
  datatype TagValue = Str(s: string) | NotStr

  /** `{k.lower(): clean(v)}`, later keys overwriting earlier ones that lower-case alike. */
  function TagMap(tags: seq<(string, TagValue)>): map<string, string> {
    if tags == [] then map[]
    else
      var (k, v) := tags[|tags| - 1];
      var m := TagMap(tags[..|tags| - 1]);
      if v.Str? then m[Lower(k) := Sanitize.CleanTagValue(v.s)] else m
  }

  /** The tag loop at main.py lines 347-351. */
  method CleanTags(tags: seq<(string, TagValue)>) returns (metadata: map<string, string>)
    ensures metadata == TagMap(tags)
  {
    metadata := map[];
    for i := 0 to |tags|
      invariant metadata == TagMap(tags[..i])
    {
      assert tags[..i + 1][..i] == tags[..i];
      var (k, v) := tags[i];
      if v.Str? {
        metadata := metadata[Lower(k) := Sanitize.CleanTagValue(v.s)];
      }
    }
    assert tags[..|tags|] == tags;
  }

  /** Position `i` holds the last string-valued tag whose key lower-cases to `key`. */
  predicate LastTag(tags: seq<(string, TagValue)>, key: string, i: int) {
    && 0 <= i < |tags| && tags[i].1.Str? && Lower(tags[i].0) == key
    && forall j :: i < j < |tags| ==> !(tags[j].1.Str? && Lower(tags[j].0) == key)
  }

  lemma LowerIdempotent(s: string)
    ensures Lower(Lower(s)) == Lower(s)
  {
  }

  /** Every key is lower-case and every value at most 500 long and free of control characters. */
  predicate CleanMap(m: map<string, string>) {
    forall key :: key in m ==>
      Lower(key) == key && |m[key]| <= Sanitize.MaxTagValueLength && Sanitize.NoControl(m[key])
  }

  lemma {:induction false} TagMapClean(tags: seq<(string, TagValue)>)
    ensures CleanMap(TagMap(tags))
  {
    if tags != [] {
      TagMapClean(tags[..|tags| - 1]);
      LowerIdempotent(tags[|tags| - 1].0);
    }
  }

  /** Each string-valued tag leaves its lower-cased key in the map. */
  lemma {:induction false} TagMapKeys(tags: seq<(string, TagValue)>)
    ensures forall i :: 0 <= i < |tags| && tags[i].1.Str? ==> Lower(tags[i].0) in TagMap(tags)
  {
    if tags != [] {
      TagMapKeys(tags[..|tags| - 1]);
    }
  }

  lemma LastTagSnoc(init: seq<(string, TagValue)>, t: (string, TagValue), key: string, i: int)
    requires LastTag(init, key, i)
    requires !(t.1.Str? && Lower(t.0) == key)
    ensures LastTag(init + [t], key, i)
  {
  }

  lemma LastTagAtEnd(init: seq<(string, TagValue)>, t: (string, TagValue), key: string)
    requires t.1.Str? && Lower(t.0) == key
    ensures LastTag(init + [t], key, |init|)
  {
  }

  /** Each key holds the cleaned value of the last string-valued tag that lower-cases to it. */
  lemma {:induction false} TagMapLastWins(tags: seq<(string, TagValue)>)
    ensures forall key :: key in TagMap(tags) ==>
              exists i :: LastTag(tags, key, i) && TagMap(tags)[key] == Sanitize.CleanTagValue(tags[i].1.s)
  {
    if tags != [] {
      var init := tags[..|tags| - 1];
      var t := tags[|tags| - 1];
      assert tags == init + [t];
      TagMapLastWins(init);
      var m0 := TagMap(init);
      var m := TagMap(tags);
      assert m == if t.1.Str? then m0[Lower(t.0) := Sanitize.CleanTagValue(t.1.s)] else m0;
      forall key | key in m
        ensures exists i :: LastTag(tags, key, i) && m[key] == Sanitize.CleanTagValue(tags[i].1.s)
      {
        if t.1.Str? && key == Lower(t.0) {
          LastTagAtEnd(init, t, key);
          assert tags[|init|] == t;
        } else {
          assert key in m0 && m[key] == m0[key];
          var i :| LastTag(init, key, i) && m0[key] == Sanitize.CleanTagValue(init[i].1.s);
          LastTagSnoc(init, t, key, i);
          assert tags[i] == init[i];
        }
      }
    }
  }
}
