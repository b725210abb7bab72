/** The content update of the Codex CLI configuration file that makes OpenRouter the model
    provider (ensure_codex_openrouter_config). */
module CodexConfig {
  import opened Text

  const ProviderHeader: string := "[model_providers.openrouter]"

  const ProviderBlock: string :=
    ProviderHeader + "\nname     = \"OpenRouter\"\nbase_url = \"https://openrouter.ai/api/v1\"\nenv_key  = \"OPENROUTER_API_KEY\"\nmodel_provider = \"openrouter\"\n"

  const KeyMarker: string := "# OPENROUTER_API_KEY="

  /** The pattern both steps follow: unless the marker already occurs, a newline and a
      piece beginning with the marker are appended. */
  function AppendUnlessPresent(c: string, marker: string, piece: string): (r: string)
    requires StartsWith(piece, marker)
    ensures |c| <= |r| && r[..|c|] == c
    ensures Contains(r, marker)
    ensures Contains(c, marker) ==> r == c
    ensures forall p :: Contains(c, p) ==> Contains(r, p)
  {
    if Contains(c, marker) then c
    else
      ContainsJoined(c + "\n", piece, marker);
      assert c + "\n" + piece == c + ("\n" + piece);
      forall p | Contains(c, p) ensures Contains(c + ("\n" + piece), p) {
        ContainsAppend(c, "\n" + piece, p);
      }
      c + "\n" + piece
  }

  /** The provider block is appended unless its header already occurs. */
  function AddProvider(c: string): (r: string)
    ensures |c| <= |r| && r[..|c|] == c
    ensures Contains(r, ProviderHeader)
    ensures Contains(c, ProviderHeader) ==> r == c
  {
    var rest := ProviderBlock[|ProviderHeader|..];
    assert ProviderBlock == ProviderHeader + rest;
    assert ProviderBlock[..|ProviderHeader|] == ProviderHeader;
    AppendUnlessPresent(c, ProviderHeader, ProviderBlock)
  }

  /** The key comment is appended unless some key comment already occurs. */
  function AddKeyComment(c: string, token: string): (r: string)
    ensures |c| <= |r| && r[..|c|] == c
    ensures Contains(r, KeyMarker)
    ensures Contains(c, KeyMarker) ==> r == c
  {
    var line := KeyMarker + token + "\n";
    assert line[..|KeyMarker|] == KeyMarker;
    AppendUnlessPresent(c, KeyMarker, line)
  }

  /** The new file content: a missing file reads as "", and text is only ever appended. */
  function UpdateCodexConfig(existing: Option<string>, token: string): (content: string)
    ensures var prior := if existing.Some? then existing.value else "";
            |prior| <= |content| && content[..|prior|] == prior
    ensures Contains(content, ProviderHeader) && Contains(content, KeyMarker)
  {
    var prior := if existing.Some? then existing.value else "";
    AddKeyComment(AddProvider(prior), token)
  }

  /** Running the update on its own result changes nothing, whatever token the second call
      carries: an existing key comment is never replaced. */
  lemma UpdateIdempotent(existing: Option<string>, token: string, laterToken: string)
    ensures var once := UpdateCodexConfig(existing, token);
            UpdateCodexConfig(Some(once), laterToken) == once
  {
  }
}
