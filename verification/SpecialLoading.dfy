/**
 * The special-token table (src/q3_tokenizer.c): control tokens of the GGUF file, texts recovered from the vocabulary,
 * and the required tokens with their template aliases; and what the table means for decoding.
 */
module SpecialLoading {
  import opened Wrappers
  import opened CStrings
  import opened Specials
  import opened Tokenizer
  import opened TokenizerRoundTrip
  import opened Reencoding

  /** A required token: the alias the chat template writes, and the id. */
  datatype Required = Required(alias: cstr, id: nat)

  predicate IsControl(ty: int) { ty == 3 || ty == 4 }

  /** The control tokens among the first n ids. */
  function ControlTokens(spellings: seq<cstr>, types: seq<int>, n: nat): (r: seq<Special>)
    requires n <= |types|
    ensures forall sp :: sp in r ==> sp.id < n && Spelled(spellings, sp)
  {
    if n == 0 then []
    else
      var front := ControlTokens(spellings, types, n - 1);
      if IsControl(types[n - 1]) && n - 1 < |spellings| then front + [Special(spellings[n - 1], n - 1)] else front
  }

  predicate Spelled(spellings: seq<cstr>, sp: Special) { sp.id < |spellings| && sp.text == spellings[sp.id] }

  ghost predicate AllSpelled(spellings: seq<cstr>, specials: seq<Special>) {
    forall sp :: sp in specials ==> Spelled(spellings, sp)
  }

  ghost predicate HasText(specials: seq<Special>, text: cstr) {
    exists j :: 0 <= j < |specials| && specials[j].text == text
  }

  lemma FirstSpecialSpelled(spellings: seq<cstr>, specials: seq<Special>, id: nat)
    requires AllSpelled(spellings, specials) && FirstSpecial(specials, id).Some?
    ensures id < |spellings| && FirstSpecial(specials, id) == Some(spellings[id])
  {
    var j := FirstSpecialIsASpecial(specials, id);
    assert specials[j] in specials;
  }

  /** The loop over tokenizer.ggml.token_type. */
  method LoadControlTokens(t: TokenizerObject, types: seq<int>)
    requires t.specials == []
    modifies t`specials
    ensures t.specials == ControlTokens(t.spellings, types, |types|)
  {
    for i := 0 to |types|
      invariant t.specials == ControlTokens(t.spellings, types, i)
    {
      if types[i] != 3 && types[i] != 4 {
        continue;
      }
      assert FirstSpecial(t.specials, i) == None;
      var s := TokenString(Tables(map[], t.spellings, [], t.specials), i);
      if s.None? {
        continue;
      }
      t.specials := t.specials + [Special(s.value, i)];
    }
  }

  /** Texts the encoder needs are recovered from the vocabulary when no control token carries them. */
  method RecoverNeeded(t: TokenizerObject, need: seq<cstr>)
    requires AllSpelled(t.spellings, t.specials)
    modifies t`specials
    ensures AllSpelled(t.spellings, t.specials) && old(t.specials) <= t.specials
    ensures forall x :: HasText(t.specials, x) <==> HasText(old(t.specials), x) || (x in need && x in t.spellings)
  {
    for r := 0 to |need|
      invariant AllSpelled(t.spellings, t.specials) && old(t.specials) <= t.specials
      invariant forall x ::
        HasText(t.specials, x) <==> HasText(old(t.specials), x) || (x in need[..r] && x in t.spellings)
    {
      assert need[..r + 1] == need[..r] + [need[r]];
      var have := FindText(t.specials, need[r]);
      if have {
        continue;
      }
      var i := FindSpelling(t.spellings, t.specials, need[r]);
      if i.Some? {
        AppendedTexts(t.specials, Special(need[r], i.value));
        t.specials := t.specials + [Special(need[r], i.value)];
      }
    }
    assert need[..|need|] == need;
  }

  /** The search through the vocabulary, by token_string. */
  method FindSpelling(spellings: seq<cstr>, specials: seq<Special>, text: cstr) returns (r: Option<nat>)
    requires AllSpelled(spellings, specials)
    ensures r.Some? ==> r.value < |spellings| && spellings[r.value] == text && text !in spellings[..r.value]
    ensures r.None? ==> text !in spellings
  {
    for i := 0 to |spellings|
      invariant text !in spellings[..i]
    {
      var s := TokenString(Tables(map[], spellings, [], specials), i);
      if FirstSpecial(specials, i).Some? {
        FirstSpecialSpelled(spellings, specials, i);
      }
      assert s == Some(spellings[i]);
      if s == Some(text) {
        return Some(i);
      }
    }
    return None;
  }

  method FindText(specials: seq<Special>, text: cstr) returns (have: bool)
    ensures have <==> HasText(specials, text)
  {
    for j := 0 to |specials|
      invariant forall k :: 0 <= k < j ==> specials[k].text != text
    {
      if specials[j].text == text {
        return true;
      }
    }
    return false;
  }

  lemma AppendedTexts(specials: seq<Special>, sp: Special)
    ensures forall x :: HasText(specials + [sp], x) <==> HasText(specials, x) || x == sp.text
  {
    var longer := specials + [sp];
    forall x ensures HasText(longer, x) <==> HasText(specials, x) || x == sp.text {
      if HasText(specials, x) {
        var j :| 0 <= j < |specials| && specials[j].text == x;
        assert longer[j].text == x;
      }
      assert longer[|specials|] == sp;
    }
  }

  // ---------------------------------------------------------------- required tokens and aliases

  ghost predicate IsAlias(required: seq<Required>, sp: Special) {
    exists r :: 0 <= r < |required| && required[r] == Required(sp.text, sp.id)
  }

  /** Where a table entry may come from. */
  ghost predicate Known(spellings: seq<cstr>, required: seq<Required>, sp: Special) {
    Spelled(spellings, sp) || (sp.id < |spellings| && IsAlias(required, sp))
  }

  ghost predicate AllKnown(spellings: seq<cstr>, required: seq<Required>, specials: seq<Special>) {
    forall sp :: sp in specials ==> Known(spellings, required, sp)
  }

  /** No two ids share a spelling, and no alias is the spelling of another id. */
  ghost predicate Unambiguous(spellings: seq<cstr>, required: seq<Required>) {
    && (forall i, j :: 0 <= i < j < |spellings| ==> spellings[i] != spellings[j])
    && (forall r, i :: 0 <= r < |required| && 0 <= i < |spellings| && required[r].alias == spellings[i] ==>
        i == required[r].id)
  }

  ghost predicate FirstSpelled(spellings: seq<cstr>, specials: seq<Special>) {
    forall sp :: sp in specials ==> sp.id < |spellings| && FirstSpecial(specials, sp.id) == Some(spellings[sp.id])
  }

  lemma {:induction false} FirstSpecialOfAppended(specials: seq<Special>, sp: Special, id: nat)
    ensures FirstSpecial(specials + [sp], id)
      == if FirstSpecial(specials, id).Some? then FirstSpecial(specials, id)
         else if sp.id == id then Some(sp.text) else None
  {
    if specials == [] {
      assert specials + [sp] == [sp];
      assert FirstSpecial([sp][1..], id) == None;
    } else {
      assert (specials + [sp])[0] == specials[0] && (specials + [sp])[1..] == specials[1..] + [sp];
      FirstSpecialOfAppended(specials[1..], sp, id);
    }
  }

  /** Appending an entry whose id is already spelled, or the spelling itself, keeps first texts right. */
  lemma AppendKeepsFirstSpelled(spellings: seq<cstr>, specials: seq<Special>, sp: Special)
    requires FirstSpelled(spellings, specials) && sp.id < |spellings|
    requires Spelled(spellings, sp) || FirstSpecial(specials, sp.id).Some?
    ensures FirstSpelled(spellings, specials + [sp])
  {
    var longer := specials + [sp];
    forall x | x in longer ensures x.id < |spellings| && FirstSpecial(longer, x.id) == Some(spellings[x.id]) {
      FirstSpecialOfAppended(specials, sp, x.id);
      if x !in specials && FirstSpecial(specials, sp.id).Some? {
        var j := FirstSpecialIsASpecial(specials, sp.id);
        assert specials[j] in specials;
      }
    }
  }

  /** A spelling that is already in the table is there under its own id. */
  lemma SpellingIsOwn(spellings: seq<cstr>, required: seq<Required>, specials: seq<Special>, id: nat)
    requires Unambiguous(spellings, required) && AllKnown(spellings, required, specials)
    requires id < |spellings| && HasText(specials, spellings[id])
    ensures FirstSpecial(specials, id).Some?
  {
    var j :| 0 <= j < |specials| && specials[j].text == spellings[id];
    var sp := specials[j];
    assert sp in specials && Known(spellings, required, sp);
    if IsAlias(required, sp) {
      var r :| 0 <= r < |required| && required[r] == Required(sp.text, sp.id);
      assert sp.id == id;
    }
  }

  /** add_special_text */
  method AddSpecialText(t: TokenizerObject, text: cstr, id: nat)
    modifies t`specials
    ensures t.specials
      == if HasText(old(t.specials), text) then old(t.specials) else old(t.specials) + [Special(text, id)]
  {
    var have := FindText(t.specials, text);
    if !have {
      t.specials := t.specials + [Special(text, id)];
    }
  }

  /** One required token: its spelling, then its alias. */
  method AddRequired(t: TokenizerObject, ghost required: seq<Required>, q: Required)
    requires q in required && q.id < |t.spellings| && AllKnown(t.spellings, required, t.specials)
    modifies t`specials
    ensures AllKnown(t.spellings, required, t.specials) && old(t.specials) <= t.specials
    ensures forall x ::
      HasText(t.specials, x) <==> HasText(old(t.specials), x) || x == t.spellings[q.id] || x == q.alias
    ensures Unambiguous(t.spellings, required) && FirstSpelled(t.spellings, old(t.specials)) ==>
      FirstSpelled(t.spellings, t.specials)
  {
    hide FirstSpecial, Unambiguous;
    var spelling := t.spellings[q.id];
    ghost var before := t.specials;
    AppendedTexts(before, Special(spelling, q.id));
    AddSpecialText(t, spelling, q.id);
    ghost var middle := t.specials;
    assert AllKnown(t.spellings, required, middle);
    SpellingStep(t.spellings, required, before, middle, q.id);
    if q.alias != spelling {
      assert Known(t.spellings, required, Special(q.alias, q.id)) by {
        var r :| 0 <= r < |required| && required[r] == q;
        assert required[r] == Required(q.alias, q.id);
      }
      AppendedTexts(middle, Special(q.alias, q.id));
      AddSpecialText(t, q.alias, q.id);
      if FirstSpelled(t.spellings, middle) && FirstSpecial(middle, q.id).Some? {
        AppendKeepsFirstSpelled(t.spellings, middle, Special(q.alias, q.id));
      }
    }
  }

  lemma SpellingStep(spellings: seq<cstr>, required: seq<Required>, before: seq<Special>, after: seq<Special>, id: nat)
    requires id < |spellings| && AllKnown(spellings, required, before)
    requires after == if HasText(before, spellings[id]) then before else before + [Special(spellings[id], id)]
    ensures Unambiguous(spellings, required) && FirstSpelled(spellings, before) ==>
      FirstSpelled(spellings, after) && FirstSpecial(after, id).Some?
  {
    if Unambiguous(spellings, required) && FirstSpelled(spellings, before) {
      if HasText(before, spellings[id]) {
        SpellingIsOwn(spellings, required, before, id);
      } else {
        AppendKeepsFirstSpelled(spellings, before, Special(spellings[id], id));
        FirstSpecialOfAppended(before, Special(spellings[id], id), id);
      }
    }
  }

  /** The texts of the required tokens: spellings and aliases. */
  ghost predicate RequiredText(spellings: seq<cstr>, required: seq<Required>, x: cstr) {
    exists q :: q in required && q.id < |spellings| && (x == spellings[q.id] || x == q.alias)
  }

  lemma NoRequiredText(spellings: seq<cstr>)
    ensures forall x :: !RequiredText(spellings, [], x)
  {
  }

  lemma RequiredTextsAppended(spellings: seq<cstr>, required: seq<Required>, q: Required)
    requires q.id < |spellings|
    ensures forall x ::
      RequiredText(spellings, required + [q], x)
      <==> RequiredText(spellings, required, x) || x == spellings[q.id] || x == q.alias
  {
    forall x ensures RequiredText(spellings, required + [q], x)
      <==> RequiredText(spellings, required, x) || x == spellings[q.id] || x == q.alias
    {
      assert q in required + [q];
      if RequiredText(spellings, required, x) {
        var r :| r in required && r.id < |spellings| && (x == spellings[r.id] || x == r.alias);
        assert r in required + [q];
      }
    }
  }

  /** q3_tokenizer_verify_specials: fails exactly when a required id is not in the vocabulary. */
  method VerifySpecials(t: TokenizerObject, required: seq<Required>) returns (ok: bool)
    requires AllSpelled(t.spellings, t.specials)
    modifies t`specials
    ensures ok <==> forall q :: q in required ==> q.id < |t.spellings|
    ensures AllKnown(t.spellings, required, t.specials) && old(t.specials) <= t.specials
    ensures ok ==> forall x ::
      HasText(t.specials, x) <==> HasText(old(t.specials), x) || RequiredText(t.spellings, required, x)
    ensures Unambiguous(t.spellings, required) ==> FirstSpelled(t.spellings, t.specials)
  {
    hide FirstSpecial, Unambiguous, Known, HasText, RequiredText;
    SpelledIsFirst(t.spellings, required, t.specials);
    assert required[..0] == [];
    assert forall x :: !RequiredText(t.spellings, [], x) by { NoRequiredText(t.spellings); }
    for i := 0 to |required|
      invariant AllKnown(t.spellings, required, t.specials) && old(t.specials) <= t.specials
      invariant forall q :: q in required[..i] ==> q.id < |t.spellings|
      invariant forall x ::
        HasText(t.specials, x)
        <==> HasText(old(t.specials), x) || RequiredText(t.spellings, required[..i], x)
      invariant Unambiguous(t.spellings, required) ==> FirstSpelled(t.spellings, t.specials)
    {
      if required[i].id >= |t.spellings| {
        return false;
      }
      AddRequired(t, required, required[i]);
      assert required[..i + 1] == required[..i] + [required[i]];
      RequiredTextsAppended(t.spellings, required[..i], required[i]);
    }
    assert required[..|required|] == required;
    return true;
  }

  lemma SpelledIsFirst(spellings: seq<cstr>, required: seq<Required>, specials: seq<Special>)
    requires AllSpelled(spellings, specials)
    ensures AllKnown(spellings, required, specials) && FirstSpelled(spellings, specials)
  {
    forall sp | sp in specials ensures sp.id < |spellings| && FirstSpecial(specials, sp.id) == Some(spellings[sp.id]) {
      var j :| 0 <= j < |specials| && specials[j] == sp;
      FirstSpecialSpelled(spellings, specials, sp.id);
    }
  }

  // ---------------------------------------------------------------- aliases and the round trip

  /** What loading leaves behind. */
  ghost predicate Verified(t: Tables, required: seq<Required>) {
    && AllKnown(t.spellings, required, t.specials) && FirstSpelled(t.spellings, t.specials)
    && forall q :: q in required ==> q.id < |t.spellings| && HasText(t.specials, q.alias)
  }

  lemma {:induction false} FirstIdOccurs(specials: seq<Special>, text: cstr)
    requires HasText(specials, text)
    ensures Special(text, FirstId(specials, text)) in specials
  {
    if specials[0].text != text {
      var j :| 0 <= j < |specials| && specials[j].text == text;
      assert specials[1..][j - 1].text == text;
      FirstIdOccurs(specials[1..], text);
    }
  }

  /** The first text under an entry's id is its text exactly when the entry is a spelling. */
  lemma FirstTextOf(t: Tables, required: seq<Required>, text: cstr)
    requires Verified(t, required) && Unambiguous(t.spellings, required) && HasText(t.specials, text)
    ensures var id := FirstId(t.specials, text);
      id < |t.spellings| && FirstSpecial(t.specials, id) == Some(t.spellings[id])
  {
    FirstIdOccurs(t.specials, text);
  }

  /**
   * A loaded tokenizer has one text per id exactly when every template alias is the GGUF spelling of its token. An
   * alias that differs is encoded to the token and comes back as the spelling.
   */
  lemma OneTextIffAliasesAreSpellings(t: Tables, required: seq<Required>)
    requires Verified(t, required) && Unambiguous(t.spellings, required)
    ensures OneTextPerId(t) <==> forall q :: q in required ==> q.alias == t.spellings[q.id]
  {
    hide FirstId, FirstSpecial;
    if OneTextPerId(t) {
      forall q | q in required ensures q.alias == t.spellings[q.id] {
        var j :| 0 <= j < |t.specials| && t.specials[j].text == q.alias;
        FirstTextOf(t, required, q.alias);
        var r :| 0 <= r < |required| && required[r] == q;
        assert FirstId(t.specials, q.alias) == q.id;
      }
    }
    if forall q :: q in required ==> q.alias == t.spellings[q.id] {
      forall j | 0 <= j < |t.specials|
        ensures FirstSpecial(t.specials, FirstId(t.specials, t.specials[j].text)) == Some(t.specials[j].text)
      {
        var text := t.specials[j].text;
        FirstTextOf(t, required, text);
        FirstIdOccurs(t.specials, text);
        assert Known(t.spellings, required, Special(text, FirstId(t.specials, text)));
      }
    }
  }

  /** Decoding undoes encoding on every input exactly when the template aliases are the GGUF spellings. */
  lemma LoadedRoundTripsIff(t: Tables, required: seq<Required>)
    requires Loaded(t) && Verified(t, required) && Unambiguous(t.spellings, required)
    ensures RoundTrips(t) <==> forall q :: q in required ==> q.alias == t.spellings[q.id]
  {
    RoundTripsIffOneTextPerId(t);
    OneTextIffAliasesAreSpellings(t, required);
  }

  /** Whatever the aliases, what an id is decoded to is encoded to that id. */
  lemma VerifiedKeepsIds(t: Tables, required: seq<Required>)
    requires Verified(t, required) && Unambiguous(t.spellings, required)
    ensures KeepsIds(t.specials)
  {
    hide FirstId, FirstSpecial, Known, Unambiguous;
    forall j | 0 <= j < |t.specials|
      ensures RecognisedAs(t.specials, DecodedText(t.specials, j), FirstId(t.specials, t.specials[j].text))
    {
      var text := t.specials[j].text;
      var id := FirstId(t.specials, text);
      FirstTextOf(t, required, text);
      var i := FirstSpecialIsASpecial(t.specials, id);
      var k := FirstEntry(t.specials, i);
      assert t.specials[k] in t.specials;
      assert t.specials[k].id == id by { SpellingHasOneId(t, required, k, id); }
    }
  }

  lemma SpellingHasOneId(t: Tables, required: seq<Required>, k: nat, id: nat)
    requires Verified(t, required) && Unambiguous(t.spellings, required)
    requires k < |t.specials| && id < |t.spellings| && t.specials[k].text == t.spellings[id]
    ensures t.specials[k].id == id
  {
    var sp := t.specials[k];
    assert sp in t.specials && Known(t.spellings, required, sp);
    if IsAlias(required, sp) {
      var r :| 0 <= r < |required| && required[r] == Required(sp.text, sp.id);
    }
  }
}
