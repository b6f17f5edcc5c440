/**
 * Loading a whole tokenizer from a GGUF file (q3_tokenizer_init_gguf in src/q3_tokenizer.c), and what the result
 * promises, from conditions on the file's token list.
 */
module TokenizerFile {
  import opened Wrappers
  import opened CStrings
  import opened ByteLevel
  import opened Bpe
  import opened Specials
  import opened Tokenizer
  import opened TokenizerRoundTrip
  import opened EncodesAll
  import opened Reencoding
  import opened SpecialLoading

  /**
   * The three arrays of the file. Tokens and merges are None if they are missing or hold no strings; a token_type array
   * that is missing or holds no integers is empty.
   */
  datatype File = File(tokens: Option<seq<seq<byte>>>, merges: Option<seq<seq<byte>>>, types: seq<int>)

  // ---------------------------------------------------------------- the texts of the special-token table

  ghost predicate ControlText(spellings: seq<cstr>, types: seq<int>, n: nat, x: cstr)
    requires n <= |types|
  {
    exists i :: 0 <= i < n && i < |spellings| && (types[i] == 3 || types[i] == 4) && spellings[i] == x
  }

  lemma {:induction false} ControlTexts(spellings: seq<cstr>, types: seq<int>, n: nat, x: cstr)
    requires n <= |types|
    ensures HasText(ControlTokens(spellings, types, n), x) <==> ControlText(spellings, types, n, x)
  {
    hide HasText;
    if n == 0 {
      assert !HasText([], x) by { NoText(x); }
    } else {
      ControlTexts(spellings, types, n - 1, x);
      if IsControl(types[n - 1]) && n - 1 < |spellings| {
        AppendedTexts(ControlTokens(spellings, types, n - 1), Special(spellings[n - 1], n - 1));
      }
    }
  }

  lemma NoText(x: cstr)
    ensures !HasText([], x)
  {
  }

  /**
   * Every text of a loaded table: a control token, a needed text of the vocabulary, a required spelling or an alias.
   */
  ghost predicate LoadedText(spellings: seq<cstr>, types: seq<int>, need: seq<cstr>, required: seq<Required>, x: cstr) {
    || ControlText(spellings, types, |types|, x)
    || (x in need && x in spellings)
    || RequiredText(spellings, required, x)
  }

  /** What a successful load leaves behind. */
  ghost predicate FromFile(t: Tables, types: seq<int>, need: seq<cstr>, required: seq<Required>) {
    && t.vocab == VocabularyOf(t.spellings)
    && (forall x :: HasText(t.specials, x) <==> LoadedText(t.spellings, types, need, required, x))
    && (forall q :: q in required ==> q.id < |t.spellings|)
    && (Unambiguous(t.spellings, required) ==> Verified(t, required))
  }

  // ---------------------------------------------------------------- loading

  /** The merge loop: addm with the running count as rank. */
  method LoadMerges(t: TokenizerObject, merges: seq<seq<byte>>)
    requires t.merges == []
    modifies t`merges
    ensures t.merges == CStringsOf(merges)
  {
    for i := 0 to |merges|
      invariant t.merges == CStringsOf(merges)[..i]
    {
      t.merges := t.merges + [CString(merges[i])];
    }
  }

  /**
   * q3_tokenizer_init_gguf. It fails exactly for missing arrays and for a required id outside the vocabulary. The
   * tokenizer it leaves is ready for encoding exactly if no text it put into the special-token table is empty.
   */
  method Init(file: File, need: seq<cstr>, required: seq<Required>) returns (ok: bool, t: TokenizerObject)
    requires file.merges.Some? ==> |file.merges.value| <= INT_MAX
    ensures ok <==>
      file.tokens.Some? && file.merges.Some? && forall q :: q in required ==> q.id < |file.tokens.value|
    ensures ok ==> t.spellings == CStringsOf(file.tokens.value) && t.merges == CStringsOf(file.merges.value)
    ensures ok ==> FromFile(t.View(), file.types, need, required)
    ensures ok ==> (t.Valid() <==> !LoadedText(t.spellings, file.types, need, required, []))
  {
    hide ControlText, RequiredText, HasText, Unambiguous, FirstSpelled, AllKnown, VocabularyOf, FirstSpecial;
    t := new TokenizerObject();
    if file.tokens.None? || file.merges.None? {
      return false, t;
    }
    t.LoadTokens(file.tokens.value);
    LoadMerges(t, file.merges.value);
    LoadControlTokens(t, file.types);
    ghost var control := t.specials;
    RecoverNeeded(t, need);
    ghost var recovered := t.specials;
    ok := VerifySpecials(t, required);
    if ok {
      forall x ensures HasText(t.specials, x) <==> LoadedText(t.spellings, file.types, need, required, x) {
        ControlTexts(t.spellings, file.types, |file.types|, x);
      }
      EmptyText(t.specials);
      VerifiedWhenUnambiguous(t.View(), file.types, need, required);
    }
  }

  lemma EmptyText(specials: seq<Special>)
    ensures NoEmptyText(specials) <==> !HasText(specials, [])
  {
  }

  lemma VerifiedWhenUnambiguous(t: Tables, types: seq<int>, need: seq<cstr>, required: seq<Required>)
    requires forall x :: HasText(t.specials, x) <==> LoadedText(t.spellings, types, need, required, x)
    requires AllKnown(t.spellings, required, t.specials) && forall q :: q in required ==> q.id < |t.spellings|
    requires Unambiguous(t.spellings, required) ==> FirstSpelled(t.spellings, t.specials)
    ensures Unambiguous(t.spellings, required) ==> Verified(t, required)
  {
    hide HasText, Unambiguous, FirstSpelled, AllKnown, ControlText;
    forall q | q in required ensures HasText(t.specials, q.alias) {
      assert RequiredText(t.spellings, required, q.alias);
    }
  }

  // ---------------------------------------------------------------- conditions on the file

  /** The four ids that bypass merging spell their bytes. */
  ghost predicate ShortcutsInFile(spellings: seq<cstr>) {
    forall c: byte :: Shortcut(c).Some? ==>
      Shortcut(c).value < |spellings| && spellings[Shortcut(c).value] == Symbol(c)
  }

  /** Control tokens, needed texts, required spellings and aliases are ASCII, and none of them is empty. */
  ghost predicate PlainTexts(spellings: seq<cstr>, types: seq<int>, need: seq<cstr>, required: seq<Required>) {
    forall x :: LoadedText(spellings, types, need, required, x) ==> x != [] && Ascii(x)
  }

  lemma SpecialTexts(t: Tables, types: seq<int>, need: seq<cstr>, required: seq<Required>)
    requires FromFile(t, types, need, required)
    ensures PlainTexts(t.spellings, types, need, required) <==> NoEmptyText(t.specials) && AsciiSpecials(t.specials)
  {
    hide LoadedText;
    if PlainTexts(t.spellings, types, need, required) {
      forall j | 0 <= j < |t.specials| ensures t.specials[j].text != [] && Ascii(t.specials[j].text) {
        assert HasText(t.specials, t.specials[j].text);
      }
    }
    if NoEmptyText(t.specials) && AsciiSpecials(t.specials) {
      forall x | LoadedText(t.spellings, types, need, required, x) ensures x != [] && Ascii(x) {
        assert HasText(t.specials, x);
      }
    }
  }

  lemma ShortcutSpelled(t: Tables, c: byte)
    requires AsciiSpecials(t.specials) && SpelledFirst(t) && Shortcut(c).Some?
    requires Shortcut(c).value < |t.spellings| && t.spellings[Shortcut(c).value] == Symbol(c)
    ensures TokenBytes(t, Shortcut(c).value) == Some([c])
  {
    hide Symbol, SpelledFirst, Shortcut;
    var id := Shortcut(c).value;
    SymbolShape(c);
    if FirstSpecial(t.specials, id).Some? {
      var j := FirstSpecialIsASpecial(t.specials, id);
      assert t.specials[j].text == t.spellings[id] by { FirstTextSpelled(t, j); }
      assert Symbol(c)[0] < 0x80;
    } else {
      OneByteText(c);
      assert Symbol(c)[0..] == Symbol(c);
      DecodesByteLevel(Symbol(c), 0, [c]);
    }
  }

  lemma FirstTextSpelled(t: Tables, j: nat)
    requires SpelledFirst(t) && j < |t.specials|
    ensures var id := t.specials[j].id; id < |t.spellings| && FirstSpecial(t.specials, id) == Some(t.spellings[id])
  {
  }

  /** Everything decoding relies on holds of the loaded tokenizer, if and only if its special texts are plain. */
  lemma LoadedIffPlainTexts(t: Tables, types: seq<int>, need: seq<cstr>, required: seq<Required>)
    requires FromFile(t, types, need, required)
    requires Unambiguous(t.spellings, required) && ShortcutsInFile(t.spellings)
    ensures Loaded(t) <==> PlainTexts(t.spellings, types, need, required)
  {
    hide LoadedText, HasText, TokenBytes, VocabularyOf, PlainTexts, Shortcut, Symbol, NoEmptyText, AsciiSpecials;
    SpecialTexts(t, types, need, required);
    assert SpelledFirst(t) by { VerifiedSpelledFirst(t, required); }
    if AsciiSpecials(t.specials) {
      forall c: byte | Shortcut(c).Some? ensures TokenBytes(t, Shortcut(c).value) == Some([c]) {
        ShortcutSpelled(t, c);
      }
    }
  }

  lemma VerifiedSpelledFirst(t: Tables, required: seq<Required>)
    requires Verified(t, required)
    ensures SpelledFirst(t)
  {
    forall j | 0 <= j < |t.specials|
      ensures var id := t.specials[j].id; id < |t.spellings| && FirstSpecial(t.specials, id) == Some(t.spellings[id])
    {
      assert t.specials[j] in t.specials;
    }
  }

  // ---------------------------------------------------------------- what a loaded tokenizer promises

  ghost predicate AliasesAreSpellings(spellings: seq<cstr>, required: seq<Required>) {
    forall q :: q in required ==> q.id < |spellings| && q.alias == spellings[q.id]
  }

  /**
   * A loaded tokenizer decodes what it encodes on every input, if and only if the template aliases are the spellings of
   * the file; and it encodes and recovers every input, if and only if also every byte has its symbol.
   */
  lemma FileRoundTripsIff(t: Tables, types: seq<int>, need: seq<cstr>, required: seq<Required>)
    requires FromFile(t, types, need, required) && Unambiguous(t.spellings, required)
    requires ShortcutsInFile(t.spellings) && PlainTexts(t.spellings, types, need, required)
    ensures Loaded(t)
    ensures RoundTrips(t) <==> AliasesAreSpellings(t.spellings, required)
    ensures (forall s: cstr :: Recovers(t, s)) <==> AliasesAreSpellings(t.spellings, required) && SpellsBytes(t)
  {
    hide LoadedText, HasText, PlainTexts, Loaded, Recovers, RoundTrips, OneTextPerId, SpellsBytes, Unambiguous;
    LoadedIffPlainTexts(t, types, need, required);
    assert NoEmptyText(t.specials) by { LoadedParts(t); }
    LoadedRoundTripsIff(t, required);
    RoundTripsIffOneTextPerId(t);
    forall c: byte | Shortcut(c).Some? ensures Symbol(c) in t.vocab {
      assert t.spellings[Shortcut(c).value] in t.spellings;
    }
    RecoversEverythingIff(t);
  }

  /**
   * Where all special texts stand in angle brackets, as the aliases of the chat template do, the ids of a loaded
   * tokenizer are stable also if aliases and spellings differ.
   */
  lemma BracketedFileIsStable(t: Tables, types: seq<int>, need: seq<cstr>, required: seq<Required>)
    requires FromFile(t, types, need, required) && Unambiguous(t.spellings, required) && ShortcutsInFile(t.spellings)
    requires forall x :: LoadedText(t.spellings, types, need, required, x) ==> Bracketed(x) && Ascii(x)
    ensures Loaded(t) && Stable(t)
  {
    hide LoadedText, Bracketed, Loaded, Stable, Verified, Unambiguous, ShortcutsInFile;
    forall x | LoadedText(t.spellings, types, need, required, x) ensures x != [] && Ascii(x) {
      BracketedIsNotEmpty(x);
    }
    LoadedIffPlainTexts(t, types, need, required);
    LoadedParts(t);
    forall j | 0 <= j < |t.specials| ensures Bracketed(t.specials[j].text) {
      assert HasText(t.specials, t.specials[j].text);
    }
    VerifiedKeepsIds(t, required);
    BracketedIsEnough(t.specials);
    StableIfKept(t);
  }

  /** The required tokens and the aliases the chat template writes. */
  const REQUIRED: seq<Required> := [
    Required(Text("<|endoftext|>"), 151643), Required(Text("<|im_start|>"), 151644),
    Required(Text("<|im_end|>"), 151645),
    Required(Text("<tool_call>"), 151657), Required(Text("</tool_call>"), 151658),
    Required(Text("<tool_response>"), 151665), Required(Text("</tool_response>"), 151666),
    Required(Text("<think>"), 151667), Required(Text("</think>"), 151668)]

  predicate Printable(s: string) { forall i :: 0 <= i < |s| ==> ' ' < s[i] <= '~' }

  function Text(s: string): (z: cstr)
    requires Printable(s)
    ensures |z| == |s| && forall i :: 0 <= i < |s| ==> z[i] == s[i] as int
  {
    seq(|s|, i requires 0 <= i < |s| => s[i] as int)
  }

  predicate InBrackets(s: string) {
    && Printable(s) && |s| >= 2 && s[0] == '<' && s[|s| - 1] == '>'
    && forall k :: 0 < k < |s| - 1 ==> s[k] != '<' && s[k] != '>'
  }

  lemma BracketedText(s: string)
    requires InBrackets(s)
    ensures Bracketed(Text(s)) && Ascii(Text(s))
  {
  }

  lemma ControlAliases()
    ensures InBrackets("<|endoftext|>") && InBrackets("<|im_start|>") && InBrackets("<|im_end|>")
  {
  }

  lemma ToolAliases()
    ensures InBrackets("<tool_call>") && InBrackets("</tool_call>")
    ensures InBrackets("<tool_response>") && InBrackets("</tool_response>")
  {
  }

  lemma ThinkAliases()
    ensures InBrackets("<think>") && InBrackets("</think>")
  {
  }

  /** The aliases meet the condition of the previous lemma by themselves. */
  lemma AliasesAreBracketed()
    ensures forall q :: q in REQUIRED ==> Bracketed(q.alias) && Ascii(q.alias)
  {
    hide Bracketed, Ascii, InBrackets, Text;
    ControlAliases();
    ToolAliases();
    ThinkAliases();
    forall s: string | InBrackets(s) ensures Printable(s) && Bracketed(Text(s)) && Ascii(Text(s)) {
      PrintableInBrackets(s);
      BracketedText(s);
    }
  }

  lemma PrintableInBrackets(s: string)
    requires InBrackets(s)
    ensures Printable(s)
  {
  }

  lemma BracketedIsNotEmpty(z: cstr)
    requires Bracketed(z)
    ensures z != []
  {
  }
}
