/** API keys: reading them from the configuration, and looking one up. */
module ApiKeys {
  import opened Basics
  import opened Text

  datatype ApiKeyEntry = ApiKeyEntry(key: string, subject: string, role: string)

  // ----- Reading -----

  function ParseEntry(text: string): Option<ApiKeyEntry> {
    var parts := SplitN(text, ':', 3);
    if |parts| != 3 then None else Some(ApiKeyEntry(TrimSpace(parts[0]), TrimSpace(parts[1]), TrimSpace(parts[2])))
  }

  /** The entries that parse, in order. */
  function ParseAll(entries: seq<string>): seq<ApiKeyEntry> {
    if entries == [] then []
    else
      var n := |entries| - 1;
      var rest := ParseAll(entries[..n]);
      match ParseEntry(entries[n])
      case None => rest
      case Some(e) => rest + [e]
  }

  method ParseAPIKeyEntries(entries: seq<string>) returns (result: seq<ApiKeyEntry>)
    ensures result == ParseAll(entries)
  {
    result := [];
    for i := 0 to |entries|
      invariant result == ParseAll(entries[..i])
    {
      assert entries[..i + 1][..i] == entries[..i];
      var parts := SplitN(entries[i], ':', 3);
      if |parts| != 3 {
        continue;
      }
      result := result + [ApiKeyEntry(TrimSpace(parts[0]), TrimSpace(parts[1]), TrimSpace(parts[2]))];
    }
    assert entries[..|entries|] == entries;
  }

  /** The text is three parts joined by colons, the first two without one, and the entry has them trimmed. */
  ghost predicate Spells(text: string, a: string, b: string, d: string, e: ApiKeyEntry) {
    && text == a + ":" + (b + ":" + d) && ':' !in a && ':' !in b
    && e == ApiKeyEntry(TrimSpace(a), TrimSpace(b), TrimSpace(d))
  }

  /** A text is read as an entry iff it spells that entry; any other text is no entry. */
  lemma EntryExactly(text: string, e: ApiKeyEntry)
    ensures ParseEntry(text) == Some(e) <==> exists a, b, d :: Spells(text, a, b, d, e)
  {
    if ParseEntry(text) == Some(e) {
      ReadEntrySpells(text, e);
    }
    forall a, b, d | Spells(text, a, b, d, e)
      ensures ParseEntry(text) == Some(e)
    {
      SplitInThree(text, ':', a, b, d);
    }
  }

  lemma ReadEntrySpells(text: string, e: ApiKeyEntry)
    requires ParseEntry(text) == Some(e)
    ensures exists a, b, d :: Spells(text, a, b, d, e)
  {
    var parts := SplitN(text, ':', 3);
    assert parts == [parts[0], parts[1], parts[2]];
    SplitInThree(text, ':', parts[0], parts[1], parts[2]);
    assert Spells(text, parts[0], parts[1], parts[2], e);
  }

  lemma ParsedAlone(text: string)
    ensures ParseAll([text]) == if ParseEntry(text).Some? then [ParseEntry(text).value] else []
  {
    assert [text][..0] == [] && ParseAll([]) == [];
  }

  /** The list is read text by text, and the order is kept. */
  lemma ParsedTextByText(xs: seq<string>, ys: seq<string>)
    ensures ParseAll(xs + ys) == ParseAll(xs) + ParseAll(ys)
  {
    ParsedAfter(xs, ParseAll(xs), ys);
  }

  lemma {:induction false} ParsedAfter(xs: seq<string>, a: seq<ApiKeyEntry>, ys: seq<string>)
    requires ParseAll(xs) == a
    ensures ParseAll(xs + ys) == a + ParseAll(ys)
    decreases |ys|
  {
    if ys == [] {
      assert xs + ys == xs;
    } else {
      var ys', text := ys[..|ys| - 1], ys[|ys| - 1];
      LastApart(ys);
      ParsedAfter(xs, a, ys');
      ParsedOneMore(xs, ys', text, a, ParseAll(ys'));
    }
  }

  lemma LastApart<T>(xs: seq<T>)
    requires xs != []
    ensures xs == xs[..|xs| - 1] + [xs[|xs| - 1]]
  {
  }

  lemma ParsedOneMore(xs: seq<string>, ys: seq<string>, text: string, a: seq<ApiKeyEntry>, b: seq<ApiKeyEntry>)
    requires ParseAll(xs + ys) == a + b && ParseAll(ys) == b
    ensures ParseAll(xs + (ys + [text])) == a + ParseAll(ys + [text])
  {
    assert xs + (ys + [text]) == xs + ys + [text];
    ParsedSnoc(xs + ys, text);
    ParsedSnoc(ys, text);
    var c := ParseAll([text]);
    assert (a + b) + c == a + (b + c);
  }

  lemma ParsedSnoc(xs: seq<string>, text: string)
    ensures ParseAll(xs + [text]) == ParseAll(xs) + ParseAll([text])
  {
    assert (xs + [text])[..|xs|] == xs;
    ParsedAlone(text);
  }

  /** The entries of the configuration variable; none when it is unset or empty. */
  function FromVariable(value: string): seq<string> {
    if value == "" then [] else Split(value, ',')
  }

  /** A variable is cut at its commas, and at nothing else; an empty one holds no entry. */
  lemma VariableCutAtCommas(value: string)
    ensures value == "" <==> FromVariable(value) == []
    ensures value != "" ==> Free(FromVariable(value), ',') && Join(FromVariable(value), ',') == value
  {
    SplitPieces(value, ',');
  }

  // ----- Writing -----

  function Render(e: ApiKeyEntry): string {
    e.key + ":" + e.subject + ":" + e.role
  }

  function RenderEach(es: seq<ApiKeyEntry>): (r: seq<string>)
    ensures |r| == |es|
  {
    seq(|es|, i requires 0 <= i < |es| => Render(es[i]))
  }

  function ToVariable(es: seq<ApiKeyEntry>): string {
    if es == [] then "" else Join(RenderEach(es), ',')
  }

  /** The entries that the format can carry. */
  predicate Renderable(e: ApiKeyEntry) {
    && Trimmed(e.key) && Trimmed(e.subject) && Trimmed(e.role)
    && ':' !in e.key && ':' !in e.subject
    && ',' !in e.key && ',' !in e.subject && ',' !in e.role
  }

  lemma RenderThenParse(e: ApiKeyEntry)
    requires Renderable(e)
    ensures ParseEntry(Render(e)) == Some(e)
  {
    assert Render(e) == e.key + ":" + (e.subject + ":" + e.role);
    SplitInThree(Render(e), ':', e.key, e.subject, e.role);
  }

  lemma NoCommaAdded(e: ApiKeyEntry)
    requires Renderable(e)
    ensures ',' !in Render(e)
  {
    assert ',' !in e.key + ":";
    assert ',' !in e.key + ":" + e.subject;
  }

  lemma RenderEachButLast(es: seq<ApiKeyEntry>)
    requires es != []
    ensures RenderEach(es)[..|es| - 1] == RenderEach(es[..|es| - 1])
  {
  }

  lemma {:induction false} RenderAllThenParse(es: seq<ApiKeyEntry>)
    requires forall e :: e in es ==> Renderable(e)
    ensures ParseAll(RenderEach(es)) == es
  {
    if es != [] {
      var n := |es| - 1;
      RenderAllThenParse(es[..n]);
      RenderThenParse(es[n]);
      RenderEachButLast(es);
      assert RenderEach(es)[n] == Render(es[n]);
      LastApart(es);
    }
  }

  /** Whatever the text, what is read from a piece without a comma can be written. */
  lemma ParsedIsRenderable(text: string)
    requires ',' !in text
    ensures ParseEntry(text).Some? ==> Renderable(ParseEntry(text).value)
  {
    var parts := SplitN(text, ':', 3);
    if |parts| == 3 {
      assert parts == [parts[0], parts[1], parts[2]];
      SplitInThree(text, ':', parts[0], parts[1], parts[2]);
      assert forall c :: c in parts[0] || c in parts[1] || c in parts[2] ==> c in text;
    }
  }

  lemma {:induction false} ParsedAreRenderable(entries: seq<string>)
    requires Free(entries, ',')
    ensures forall e :: e in ParseAll(entries) ==> Renderable(e)
  {
    if entries != [] {
      var n := |entries| - 1;
      ParsedAreRenderable(entries[..n]);
      ParsedIsRenderable(entries[n]);
    }
  }

  /** A list of entries survives the configuration variable exactly when every entry can be carried. */
  lemma VariableRoundTrip(es: seq<ApiKeyEntry>)
    ensures ParseAll(FromVariable(ToVariable(es))) == es <==> forall e :: e in es ==> Renderable(e)
  {
    var value := ToVariable(es);
    if forall e :: e in es ==> Renderable(e) {
      if es != [] {
        forall i | 0 <= i < |es|
          ensures ',' !in RenderEach(es)[i]
        {
          NoCommaAdded(es[i]);
        }
        SplitJoin(RenderEach(es), ',');
        RenderAllThenParse(es);
        NotEmpty(es);
      }
    } else {
      if value != "" {
        SplitPieces(value, ',');
        ParsedAreRenderable(Split(value, ','));
      }
    }
  }

  lemma NotEmpty(es: seq<ApiKeyEntry>)
    requires es != []
    ensures ToVariable(es) != ""
  {
    assert |Render(es[0])| >= 2;
  }

  // ----- Lookup -----

  /** Entry i has the key, and no later entry has. */
  predicate LastWithKey(keys: seq<ApiKeyEntry>, key: string, i: nat) {
    i < |keys| && keys[i].key == key && forall j :: i < j < |keys| ==> keys[j].key != key
  }

  /** Compares with every entry and keeps the last match. */
  method ValidateAPIKey(key: string, keys: seq<ApiKeyEntry>) returns (matched: Option<ApiKeyEntry>)
    ensures matched.Some? <==> exists e :: e in keys && e.key == key
    ensures matched.Some? ==> exists i: nat :: LastWithKey(keys, key, i) && matched.value == keys[i]
  {
    matched := None;
    ghost var last := 0;
    for i := 0 to |keys|
      invariant matched.None? ==> forall j :: 0 <= j < i ==> keys[j].key != key
      invariant matched.Some? ==> last < i && LastWithKey(keys[..i], key, last) && matched.value == keys[last]
    {
      if keys[i].key == key {
        matched := Some(keys[i]);
        last := i;
      }
      assert keys[..i + 1] == keys[..i] + [keys[i]];
    }
    assert keys[..|keys|] == keys;
  }
}
