/** The dictionary settings and their former names, and that no name can hide inside another. */
module ConfigNames {
  import opened Common
  import opened ConfigTree
  import opened ConfigRepair

  const DICT_CONFIGS: seq<Entry> := [
    Entry("openai.api_configs", ["OPENAI_API_CONFIGS"], true),
    Entry("ollama.api_configs", ["OLLAMA_API_CONFIGS"], true),
    Entry("rag.mineru_params", ["MINERU_PARAMS"], false),
    Entry("rag.docling_params", ["DOCLING_PARAMS"], false),
    Entry("web.search.linkup_search_params", ["LINKUP_SEARCH_PARAMS"], false),
    Entry("image_generation.automatic1111.api_params", ["AUTOMATIC1111_PARAMS"], false),
    Entry("image_generation.openai.params", ["IMAGES_OPENAI_API_PARAMS"], false),
    Entry("audio.tts.openai.params", ["AUDIO_TTS_OPENAI_PARAMS"], false),
    Entry("models.default_metadata", ["DEFAULT_MODEL_METADATA"], false),
    Entry("models.default_params", ["DEFAULT_MODEL_PARAMS"], false),
    Entry("user.permissions", ["USER_PERMISSIONS"], false)
  ]

  lemma DifferAt(p: string, q: string, i: nat)
    requires i < |p| && i < |q| && p[i] != q[i]
    ensures !Under(p, q + ".") && !Under(q, p + ".")
  {
    assert (p + ".")[i] == p[i] && (q + ".")[i] == q[i];
  }

  /** A setting's dotted name and its former name differ in case at the first letter. */
  ghost predicate Cased(e: Entry) {
    && e.key != "" && 'a' <= e.key[0] <= 'z'
    && |e.aliases| == 1 && e.aliases[0] != "" && 'A' <= e.aliases[0][0] <= 'Z'
  }

  lemma AllCased()
    ensures forall e | e in DICT_CONFIGS :: Cased(e)
  {
  }

  /** The first letters of the dotted names, and of the former names, in table order. */
  const KEY_INITIALS := "oorrwiiammu"
  const ALIAS_INITIALS := "OOMDLAIADDU"

  lemma Initials(i: nat)
    requires i < |DICT_CONFIGS|
    ensures DICT_CONFIGS[i].key != "" && DICT_CONFIGS[i].key[0] == KEY_INITIALS[i]
    ensures |DICT_CONFIGS[i].aliases| == 1 && DICT_CONFIGS[i].aliases[0] != ""
    ensures DICT_CONFIGS[i].aliases[0][0] == ALIAS_INITIALS[i]
  {
  }

  lemma DifferentInitials(p: string, q: string)
    requires p != "" && q != "" && p[0] != q[0]
    ensures NotNested(p, q)
  {
    DifferAt(p, q, 0);
  }

  ghost predicate NotNested(p: string, q: string) {
    !Under(p, q + ".") && !Under(q, p + ".")
  }

  lemma SimilarKeys()
    ensures NotNested("openai.api_configs", "ollama.api_configs")
    ensures NotNested("rag.mineru_params", "rag.docling_params")
    ensures NotNested("image_generation.automatic1111.api_params", "image_generation.openai.params")
    ensures NotNested("models.default_metadata", "models.default_params")
  {
    DifferAt("openai.api_configs", "ollama.api_configs", 1);
    DifferAt("rag.mineru_params", "rag.docling_params", 4);
    DifferAt("image_generation.automatic1111.api_params", "image_generation.openai.params", 17);
    DifferAt("models.default_metadata", "models.default_params", 15);
  }

  lemma SimilarAliases()
    ensures NotNested("OPENAI_API_CONFIGS", "OLLAMA_API_CONFIGS")
    ensures NotNested("AUTOMATIC1111_PARAMS", "AUDIO_TTS_OPENAI_PARAMS")
    ensures NotNested("DOCLING_PARAMS", "DEFAULT_MODEL_METADATA")
    ensures NotNested("DOCLING_PARAMS", "DEFAULT_MODEL_PARAMS")
    ensures NotNested("DEFAULT_MODEL_METADATA", "DEFAULT_MODEL_PARAMS")
  {
    DifferAt("OPENAI_API_CONFIGS", "OLLAMA_API_CONFIGS", 1);
    DifferAt("AUTOMATIC1111_PARAMS", "AUDIO_TTS_OPENAI_PARAMS", 2);
    DifferAt("DOCLING_PARAMS", "DEFAULT_MODEL_METADATA", 1);
    DifferAt("DOCLING_PARAMS", "DEFAULT_MODEL_PARAMS", 1);
    DifferAt("DEFAULT_MODEL_METADATA", "DEFAULT_MODEL_PARAMS", 14);
  }

  /** Two settings with the same first letters are among the pairs compared above. */
  lemma KeysApart(i: nat, j: nat)
    requires i < j < |DICT_CONFIGS|
    ensures NotNested(DICT_CONFIGS[i].key, DICT_CONFIGS[j].key)
  {
    if KEY_INITIALS[i] != KEY_INITIALS[j] {
      Initials(i);
      Initials(j);
      DifferentInitials(DICT_CONFIGS[i].key, DICT_CONFIGS[j].key);
    } else {
      SimilarKeys();
    }
  }

  lemma AliasesApart(i: nat, j: nat)
    requires i < j < |DICT_CONFIGS| && |DICT_CONFIGS[i].aliases| == |DICT_CONFIGS[j].aliases| == 1
    ensures NotNested(DICT_CONFIGS[i].aliases[0], DICT_CONFIGS[j].aliases[0])
  {
    if ALIAS_INITIALS[i] != ALIAS_INITIALS[j] {
      Initials(i);
      Initials(j);
      DifferentInitials(DICT_CONFIGS[i].aliases[0], DICT_CONFIGS[j].aliases[0]);
    } else {
      SimilarAliases();
    }
  }

  lemma CasedApart(e: Entry, f: Entry, p: string, q: string)
    requires Cased(e) && Cased(f) && p in Prefixes(e) && q in Prefixes(f) && Under(p, q + ".")
    ensures (p == e.key && q == f.key) || (p == e.aliases[0] && q == f.aliases[0])
  {
    assert (p + ".")[0] == p[0] == (q + ".")[0] == q[0];
  }

  /** No name of a setting can hide inside another name. */
  lemma DictConfigsSeparate()
    ensures Separate(DICT_CONFIGS)
  {
    AllCased();
    forall e, f, p, q | e in DICT_CONFIGS && f in DICT_CONFIGS && p in Prefixes(e) && q in Prefixes(f) && Under(p, q + ".")
      ensures e == f && p == q
    {
      var i :| 0 <= i < |DICT_CONFIGS| && DICT_CONFIGS[i] == e;
      var j :| 0 <= j < |DICT_CONFIGS| && DICT_CONFIGS[j] == f;
      CasedApart(e, f, p, q);
      if i < j {
        KeysApart(i, j);
        AliasesApart(i, j);
      } else if j < i {
        KeysApart(j, i);
        AliasesApart(j, i);
      }
    }
  }

  lemma DictConfigsDistinct()
    ensures NoDup(DICT_CONFIGS)
  {
    forall i, j | 0 <= i < j < |DICT_CONFIGS|
      ensures DICT_CONFIGS[i] != DICT_CONFIGS[j]
    {
      KeysApart(i, j);
    }
  }
}
