/**
 * The `hmac:generate` console command: after confirmation it reads the
 * current key, generates a new one, rewrites the `.env` line that holds the
 * old key, and prints the new key.
 *
 * The `.env` file and the console are fields of the command object; the
 * rewrite is `preg_replace` with the pattern `/^HMAC_PRIVATE_KEY=<quoted old
 * key>/m`, which replaces that prefix at the start of every line.
 */
module HmacCommands {

  import opened Wrappers
  import opened Php
  import opened Pcre
  import opened HmacServices

  const LineBreak: char := '\n'

  /** What the command prints last, on success. */
  const SuccessMessage: string := "HMAC private key set successfully."

  /**
   * `keyReplacementPattern`: `/^`, the parameter name, the quoted text
   * `=<key>`, `/m`. For a parameter name without metacharacters the pattern
   * matches, at the start of a line, exactly `<name>=<key>` taken literally.
   */
  function KeyReplacementPattern(paramName: string, key: string): (r: string)
    ensures NoMeta(paramName) ==> AnchoredLiteral(r) == Some(paramName + "=" + key)
  {
    var escaped := PregQuote("=" + key);
    var pattern := "/^" + paramName + escaped + "/m";
    assert NoMeta(paramName) ==> AnchoredLiteral(pattern) == Some(paramName + "=" + key) by {
      if NoMeta(paramName) {
        assert pattern[..2] == "/^";
        assert pattern[|pattern| - 2..] == "/m";
        assert pattern[2..|pattern| - 2] == paramName + escaped;
        UnquotePregQuote("=" + key);
        UnquotePlainPrefix(paramName, escaped);
        assert Unquote(paramName + escaped) == Some(paramName + ("=" + key));
        assert paramName + ("=" + key) == paramName + "=" + key;
      }
    }
    pattern
  }

  lemma PrivateKeyEnvIsPlain()
    ensures NoMeta(PrivateKeyEnv)
  {
  }

  /**
   * Line by line, `preg_replace` of an anchored literal `prefix`: a line
   * that starts with it has that prefix replaced and keeps the rest; any
   * other line is left as it is.
   */
  function RewriteLines(lines: seq<string>, prefix: string, replacement: string): (r: seq<string>)
    ensures |r| == |lines|
    ensures forall i :: 0 <= i < |lines| ==>
              r[i] == if prefix <= lines[i] then replacement + lines[i][|prefix|..] else lines[i]
  {
    if lines == [] then []
    else
      var line := lines[0];
      [if prefix <= line then replacement + line[|prefix|..] else line]
        + RewriteLines(lines[1..], prefix, replacement)
  }

  /** `preg_replace(pattern, replacement, subject)` for a pattern `/^<literal>/m`, on the text split at line breaks. */
  function PregReplaceAnchored(pattern: string, replacement: string, subject: string): string
    requires AnchoredLiteral(pattern).Some?
  {
    var prefix := AnchoredLiteral(pattern).value;
    Implode(LineBreak, RewriteLines(Explode(LineBreak, subject), prefix, replacement))
  }

  /** The `.env` text `writeNewEnvironmentFileWith` writes back, given the text it read. */
  function NewEnvironmentContents(contents: string, oldKey: string, newKey: string): string {
    PrivateKeyEnvIsPlain();
    PregReplaceAnchored(KeyReplacementPattern(PrivateKeyEnv, oldKey), PrivateKeyEnv + "=" + newKey, contents)
  }

  /**
   * The rewrite, line by line: when the new key has no line break, the new
   * file has as many lines as the old one; each line that starts with
   * `HMAC_PRIVATE_KEY=<old key>` has exactly that prefix replaced by
   * `HMAC_PRIVATE_KEY=<new key>` and keeps whatever followed it (the pattern
   * has no end anchor); every other line is unchanged.
   */
  lemma EnvironmentRewrite(contents: string, oldKey: string, newKey: string)
    requires LineBreak !in newKey
    ensures var before := Explode(LineBreak, contents);
            var after := Explode(LineBreak, NewEnvironmentContents(contents, oldKey, newKey));
            var prefix := PrivateKeyEnv + "=" + oldKey;
            && |after| == |before|
            && forall i :: 0 <= i < |before| ==>
                 after[i] == if prefix <= before[i]
                             then PrivateKeyEnv + "=" + newKey + before[i][|prefix|..]
                             else before[i]
  {
    PrivateKeyEnvIsPlain();
    var prefix := PrivateKeyEnv + "=" + oldKey;
    var replacement := PrivateKeyEnv + "=" + newKey;
    var before := Explode(LineBreak, contents);
    var lines := RewriteLines(before, prefix, replacement);
    assert LineBreak !in replacement by {
      assert LineBreak !in PrivateKeyEnv + "=";
    }
    forall i | 0 <= i < |lines| ensures LineBreak !in lines[i] {
      if prefix <= before[i] {
        var tail := before[i][|prefix|..];
        assert LineBreak !in tail by {
          forall k | 0 <= k < |tail| ensures tail[k] != LineBreak {
            assert tail[k] == before[i][|prefix| + k];
          }
        }
      }
    }
    ExplodeImplode(LineBreak, lines);
  }

  /** A file in which no line starts with `HMAC_PRIVATE_KEY=<old key>` is written back unchanged. */
  lemma UntouchedWithoutMatchingLine(contents: string, oldKey: string, newKey: string)
    requires forall i :: 0 <= i < |Explode(LineBreak, contents)| ==>
               !(PrivateKeyEnv + "=" + oldKey <= Explode(LineBreak, contents)[i])
    ensures NewEnvironmentContents(contents, oldKey, newKey) == contents
  {
    PrivateKeyEnvIsPlain();
    var before := Explode(LineBreak, contents);
    assert RewriteLines(before, PrivateKeyEnv + "=" + oldKey, PrivateKeyEnv + "=" + newKey) == before;
  }

  /** The command, with the `.env` file's text and the lines printed to the console as its state. */
  class HmacGenerateCommand {
    var environment: string
    var console: seq<string>

    constructor (environment: string)
      ensures this.environment == environment && console == []
    {
      this.environment := environment;
      console := [];
    }

    /** `writeNewEnvironmentFileWith`: read the file, rewrite the old key's line, write it back. */
    method WriteNewEnvironmentFileWith(oldKey: string, newKey: string)
      modifies this
      ensures environment == NewEnvironmentContents(old(environment), oldKey, newKey)
      ensures console == old(console)
    {
      environment := NewEnvironmentContents(environment, oldKey, newKey);
    }

    /** `generateRandomKey`: rotate the service's key and return the new one. */
    method GenerateRandomKey(service: HmacService, microtime: string) returns (key: string)
      modifies service
      ensures key == service.algo + [Delimiter] + service.Hash(microtime)
      ensures service.privateKey == Some(key)
    {
      var self := service.GeneratePrivateKey(microtime);
      key := self.GetPrivateKey().value;
    }

    /**
     * `handle`, with confirmation as an input and the container's service as
     * a parameter. Declined: nothing happens. No key configured: `KeyUnset`
     * before anything is generated or written. Otherwise the old key is read
     * first, so the rewrite targets the value from before the rotation; then
     * the new key is installed, written to the file and printed.
     */
    method Handle(confirmed: bool, service: HmacService, microtime: string) returns (r: Result<()>)
      modifies this, service
      ensures !confirmed ==> r == Ok(()) && unchanged(this) && unchanged(service)
      ensures confirmed && old(service.privateKey).None? ==>
                r == Err(KeyUnset) && unchanged(this) && unchanged(service)
      ensures confirmed && old(service.privateKey).Some? ==>
                var key := service.algo + [Delimiter] + service.Hash(microtime);
                && r == Ok(())
                && service.privateKey == Some(key)
                && environment == NewEnvironmentContents(old(environment), old(service.privateKey).value, key)
                && console == old(console) + [key, SuccessMessage]
    {
      if !confirmed {
        return Ok(());
      }
      var oldKey := service.GetPrivateKey();
      if oldKey.Err? {
        return Err(oldKey.error);
      }
      var key := GenerateRandomKey(service, microtime);
      WriteNewEnvironmentFileWith(oldKey.value, key);
      console := console + [key];
      console := console + [SuccessMessage];
      r := Ok(());
    }
  }
}
