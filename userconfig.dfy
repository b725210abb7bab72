/** Per-user configuration records and the global configuration, in the three generations
    the program went through. A JSON file is Missing, Corrupt (json.load raises) or holds an
    object whose values are strings or null. */
module UserConfig {
  import opened Text
  import opened Codec

  datatype Value = Str(s: string) | Null
  type Record = map<string, Value>
  datatype FileState = Missing | Corrupt | Json(rec: Record)

  /** Python truthiness of a stored value: a non-empty string. */
  predicate Truthy(v: Value) { v.Str? && v.s != [] }

  /** get_main_config / load_config: a missing or unreadable file reads as {}. */
  function MainConfig(f: FileState): (cfg: Record)
    ensures f.Json? ==> cfg == f.rec
    ensures !f.Json? ==> cfg == map[]
  {
    if f.Json? then f.rec else map[]
  }

  // ------------------------------------------------ first generation: token only obfuscated

  /** The three results of load_user_config: None, a record, or an escaping exception. */
  datatype LoadOutcome = NotFound | Loaded(rec: Record) | Raises

  /** load_user_config: only JSON and key errors are caught, so a token that is not a
      string, not base64 or not UTF-8 escapes as an exception. */
  function LoadUserConfig(f: FileState): (r: LoadOutcome)
    ensures r.NotFound? <==> !f.Json?
    ensures r.Raises? <==> (f.Json? && "token" in f.rec &&
                            (f.rec["token"].Null? || Deobfuscate(f.rec["token"].s).None?))
    ensures r.Loaded? ==> (r.rec.Keys == f.rec.Keys &&
                           forall k :: k in f.rec && k != "token" ==> r.rec[k] == f.rec[k])
  {
    match f
    case Missing => NotFound
    case Corrupt => NotFound
    case Json(rec) =>
      if "token" !in rec then Loaded(rec)
      else match rec["token"]
        case Null => Raises
        case Str(t) =>
          match Deobfuscate(t)
          case None => Raises
          case Some(plain) => Loaded(rec["token" := Str(plain)])
  }

  /** save_user_config: a fresh record holding the name and the obfuscated token. */
  function SaveUserConfig(username: string, token: string): (rec: Record)
    ensures rec.Keys == {"username", "token"} && rec["username"] == Str(username)
    ensures rec["token"].Str? && Deobfuscate(rec["token"].s) == Some(token)
  {
    ObfuscateRoundTrip(token);
    map["username" := Str(username), "token" := Str(Obfuscate(token))]
  }

  /** Loading what save_user_config wrote gives back the plain token. */
  lemma LoadAfterSave(username: string, token: string)
    ensures LoadUserConfig(Json(SaveUserConfig(username, token))) ==
            Loaded(map["username" := Str(username), "token" := Str(token)])
  {
    ObfuscateRoundTrip(token);
    var saved := SaveUserConfig(username, token);
    assert saved["token" := Str(token)] == map["username" := Str(username), "token" := Str(token)];
  }

  /** The keys update_user_config writes for the given optional arguments. */
  function Touched(token: Option<string>, openrouterToken: Option<string>, model: Option<string>): set<string> {
    (if token.Some? then {"token"} else {}) +
    (if openrouterToken.Some? then {"openrouter_token"} else {}) +
    (if model.Some? then {"model"} else {})
  }

  /** update_user_config: start from the stored record, or from {"username"} when the file
      is missing or unreadable, then overwrite each field whose argument is given. */
  method UpdateUserConfig(f: FileState, username: string, token: Option<string>,
                          openrouterToken: Option<string>, model: Option<string>)
    returns (data: Record)
    ensures var base := if f.Json? then f.rec else map["username" := Str(username)];
            data.Keys == base.Keys + Touched(token, openrouterToken, model) &&
            forall k :: k in base && k !in Touched(token, openrouterToken, model) ==> data[k] == base[k]
    ensures token.Some? ==> data["token"] == Str(Obfuscate(token.value))
    ensures openrouterToken.Some? ==> data["openrouter_token"] == Str(openrouterToken.value)
    ensures model.Some? ==> data["model"] == Str(model.value)
    ensures !f.Json? ==> data.Keys == {"username"} + Touched(token, openrouterToken, model)
  {
    if f.Json? {
      data := f.rec;
    } else {
      data := map["username" := Str(username)];
    }
    if token.Some? {
      data := data["token" := Str(Obfuscate(token.value))];
    }
    if openrouterToken.Some? {
      data := data["openrouter_token" := Str(openrouterToken.value)];
    }
    if model.Some? {
      data := data["model" := Str(model.value)];
    }
  }

  /** A record whose token field was written by _obfuscate loads with the plain token and
      every other field as stored. */
  lemma LoadAfterTokenUpdate(data: Record, token: string)
    requires "token" in data && data["token"] == Str(Obfuscate(token))
    ensures LoadUserConfig(Json(data)) == Loaded(data["token" := Str(token)])
  {
    ObfuscateRoundTrip(token);
  }

  /** get_active_user. */
  function ActiveUser(main: FileState): (u: Option<Value>)
    ensures u.Some? <==> "active_user" in MainConfig(main)
  {
    var cfg := MainConfig(main);
    if "active_user" in cfg then Some(cfg["active_user"]) else None
  }

  /** set_active_user of the first generation: also forgets the last repository. */
  function SetActiveUser(main: FileState, username: string): (cfg: Record)
    ensures cfg.Keys == MainConfig(main).Keys + {"active_user", "last_repo_path"}
    ensures cfg["active_user"] == Str(username) && cfg["last_repo_path"] == Null
    ensures forall k :: k in MainConfig(main) && k != "active_user" && k != "last_repo_path" ==>
              cfg[k] == MainConfig(main)[k]
  {
    MainConfig(main)["active_user" := Str(username)]["last_repo_path" := Null]
  }

  /** After set_active_user, get_active_user reports the new user. */
  lemma ActiveUserAfterSet(main: FileState, username: string)
    ensures ActiveUser(Json(SetActiveUser(main, username))) == Some(Str(username))
  {
  }

  // ------------------------------------------- second generation: per-key encoding on a copy

  const TokenKeys: seq<string> := ["github_token", "openrouter_token"]

  /** One step of save_user_config's loop: a truthy value of key k is obfuscated. */
  function EncodeKey(cfg: Record, k: string): (r: Record)
    ensures r.Keys == cfg.Keys
    ensures forall j :: j in cfg && j != k ==> r[j] == cfg[j]
    ensures k in cfg ==> Truthy(r[k]) == Truthy(cfg[k])
  {
    if k in cfg && Truthy(cfg[k]) then cfg[k := Str(Obfuscate(cfg[k].s))] else cfg
  }

  /** One step of load_user_config's loop: a truthy value of key k is decoded; a value that
      does not decode is left as it is (the bare except: pass). */
  function DecodeKey(cfg: Record, k: string): (r: Record)
    ensures r.Keys == cfg.Keys
    ensures forall j :: j in cfg && j != k ==> r[j] == cfg[j]
    ensures k in cfg && Truthy(cfg[k]) && Deobfuscate(cfg[k].s).None? ==> r[k] == cfg[k]
  {
    if k in cfg && Truthy(cfg[k]) then
      match Deobfuscate(cfg[k].s)
      case None => cfg
      case Some(plain) => cfg[k := Str(plain)]
    else cfg
  }

  /** The loop over a list of keys, as a function of the keys already handled. */
  function EncodeKeys(cfg: Record, keys: seq<string>): Record
    decreases |keys|
  {
    if keys == [] then cfg else EncodeKey(EncodeKeys(cfg, keys[..|keys| - 1]), keys[|keys| - 1])
  }

  function DecodeKeys(cfg: Record, keys: seq<string>): Record
    decreases |keys|
  {
    if keys == [] then cfg else DecodeKey(DecodeKeys(cfg, keys[..|keys| - 1]), keys[|keys| - 1])
  }

  /** save_user_config of the second generation: the caller's record is a value, so the
      copy is the record itself; each truthy token field of the copy is obfuscated. */
  method SaveUserConfigV2(config: Record) returns (copy: Record)
    ensures copy == EncodeKeys(config, TokenKeys)
  {
    copy := config;
    for i := 0 to |TokenKeys|
      invariant copy == EncodeKeys(config, TokenKeys[..i])
    {
      var key := TokenKeys[i];
      assert TokenKeys[..i + 1][..i] == TokenKeys[..i];
      if key in copy && Truthy(copy[key]) {
        copy := copy[key := Str(Obfuscate(copy[key].s))];
      }
    }
    assert TokenKeys[..|TokenKeys|] == TokenKeys;
  }

  /** load_user_config of the second generation: any failure to read gives None; token
      fields are decoded where they can be. */
  method LoadUserConfigV2(f: FileState) returns (r: Option<Record>)
    ensures r == if f.Json? then Some(DecodeKeys(f.rec, TokenKeys)) else None
  {
    if !f.Json? {
      return None;
    }
    var config := f.rec;
    for i := 0 to |TokenKeys|
      invariant config == DecodeKeys(f.rec, TokenKeys[..i])
    {
      var key := TokenKeys[i];
      assert TokenKeys[..i + 1][..i] == TokenKeys[..i];
      if key in config && Truthy(config[key]) {
        var decoded := Deobfuscate(config[key].s);
        if decoded.Some? {
          config := config[key := Str(decoded.value)];
        }
      }
    }
    assert TokenKeys[..|TokenKeys|] == TokenKeys;
    return Some(config);
  }

  lemma DecodeEncodeKey(cfg: Record, k: string)
    ensures DecodeKey(EncodeKey(cfg, k), k) == cfg
  {
    if k in cfg && Truthy(cfg[k]) {
      ObfuscateRoundTrip(cfg[k].s);
      assert cfg[k := Str(Obfuscate(cfg[k].s))][k := Str(cfg[k].s)] == cfg;
    }
  }

  lemma DecodeEncodeCommute(cfg: Record, a: string, b: string)
    requires a != b
    ensures DecodeKey(EncodeKey(cfg, b), a) == EncodeKey(DecodeKey(cfg, a), b)
  {
  }

  /** Loading what the second-generation save wrote restores every token. */
  lemma LoadAfterSaveV2(config: Record)
    ensures DecodeKeys(EncodeKeys(config, TokenKeys), TokenKeys) == config
  {
    var a, b := TokenKeys[0], TokenKeys[1];
    assert TokenKeys[..1] == [a] && [a][..0] == [];
    var e1 := EncodeKey(config, a);
    assert EncodeKeys(config, TokenKeys) == EncodeKey(e1, b);
    assert DecodeKeys(EncodeKey(e1, b), TokenKeys) == DecodeKey(DecodeKey(EncodeKey(e1, b), a), b);
    DecodeEncodeCommute(e1, a, b);
    DecodeEncodeKey(config, a);
    DecodeEncodeKey(config, b);
  }

  /** A token field that does not decode is returned as stored. */
  lemma LoadKeepsUndecodable(rec: Record, k: string)
    requires k in TokenKeys && k in rec && Truthy(rec[k]) && Deobfuscate(rec[k].s).None?
    ensures k in DecodeKeys(rec, TokenKeys) && DecodeKeys(rec, TokenKeys)[k] == rec[k]
  {
    assert TokenKeys[..1] == [TokenKeys[0]] && [TokenKeys[0]][..0] == [];
  }

  // ------------------------------------ third generation: fixed record, lenient deobfuscation

  /** save_user_config of the third generation; the timestamp is a parameter. */
  function SaveUserConfigV3(username: string, token: string, openrouterToken: string,
                            model: string, createdAt: string): (rec: Record)
    ensures rec.Keys == {"username", "token", "openrouter_token", "model", "created_at"}
    ensures openrouterToken == [] ==> rec["openrouter_token"] == Str([])
    ensures Truthy(rec["token"]) <==> token != []
  {
    map["username" := Str(username),
        "token" := Str(Obfuscate(token)),
        "openrouter_token" := Str(if openrouterToken != [] then Obfuscate(openrouterToken) else []),
        "model" := Str(model),
        "created_at" := Str(createdAt)]
  }

  /** Applies the lenient _deobfuscate to a truthy field. */
  function RepairKey(cfg: Record, k: string): (r: Record)
    ensures r.Keys == cfg.Keys && forall j :: j in cfg && j != k ==> r[j] == cfg[j]
    ensures k in cfg && !Truthy(cfg[k]) ==> r[k] == cfg[k]
  {
    if k in cfg && Truthy(cfg[k]) then cfg[k := Str(RepairingDeobfuscate(cfg[k].s))] else cfg
  }

  /** load_user_config of the third generation. The lenient decoder never raises, so the
      reset of a corrupted token to "" cannot happen for string fields. */
  function LoadUserConfigV3(f: FileState): (r: Option<Record>)
    ensures r.Some? <==> f.Json?
    ensures r.Some? ==> r.value.Keys == f.rec.Keys
  {
    if f.Json? then Some(RepairKey(RepairKey(f.rec, "token"), "openrouter_token")) else None
  }

  /** Loading what the third-generation save wrote gives back both tokens, an empty
      OpenRouter token included. */
  lemma LoadAfterSaveV3(username: string, token: string, openrouterToken: string,
                        model: string, createdAt: string)
    ensures var r := LoadUserConfigV3(Json(SaveUserConfigV3(username, token, openrouterToken, model, createdAt)));
            r.Some? && r.value["token"] == Str(token) && r.value["openrouter_token"] == Str(openrouterToken) &&
            r.value["username"] == Str(username) && r.value["model"] == Str(model)
  {
    RepairingRoundTrip(token);
    RepairingRoundTrip(openrouterToken);
  }

  /** set_active_user of the third generation only sets active_user. */
  function SetActiveUserV3(main: FileState, username: string): (cfg: Record)
    ensures cfg.Keys == MainConfig(main).Keys + {"active_user"} && cfg["active_user"] == Str(username)
    ensures forall k :: k in MainConfig(main) && k != "active_user" ==> cfg[k] == MainConfig(main)[k]
  {
    MainConfig(main)["active_user" := Str(username)]
  }
}
