/**
 * Environment flags (src/utils/config.ts): `envBool`, the derived `mail.dryRun` flag and the
 * decision `sendMail` takes before it builds a transport. The process environment is a map.
 */
module Config {
  import opened Wrappers
  import opened Text

  type Env = map<string, string>

  /** The spellings `envBool` accepts as true, after lower-casing. */
  const TrueSpellings: seq<string> := ["1", "true", "yes", "on"]

  /** `envBool(name, def)`: the default when the variable is unset, otherwise whether its
      lower-cased value is one of the accepted spellings. */
  function EnvBool(env: Env, name: string, def: bool): (r: bool)
    ensures name !in env ==> r == def
    ensures name in env && ToLower(env[name]) == "true" ==> r
    ensures name in env && |env[name]| > 4 ==> !r
  {
    if name !in env then def else ToLower(env[name]) in TrueSpellings
  }

  /** A value that is set decides alone: the default is ignored. */
  lemma EnvBoolIgnoresDefault(env: Env, name: string)
    requires name in env
    ensures EnvBool(env, name, true) == EnvBool(env, name, false)
  {
  }

  /** Matching ignores case: a value and its upper-cased spelling read the same. */
  lemma EnvBoolIgnoresCase(env: Env, name: string, def: bool)
    requires name in env
    ensures EnvBool(env, name, def) == EnvBool(env[name := ToUpper(env[name])], name, def)
  {
    LowerOfUpper(env[name]);
  }

  /** The accepted values are exactly the case variants of `1`, `true`, `yes` and `on`. */
  lemma EnvBoolAccepts(env: Env, name: string, def: bool)
    requires name in env
    ensures EnvBool(env, name, def) <==> exists w :: w in TrueSpellings && ToLower(env[name]) == w
  {
  }

  /** Examples: `"TRUE"` and `"On"` are true, `""` and `"0"` are false even with default true. */
  lemma EnvBoolExamples(name: string)
    ensures EnvBool(map[name := "TRUE"], name, false)
    ensures EnvBool(map[name := "On"], name, false)
    ensures !EnvBool(map[name := ""], name, true)
    ensures !EnvBool(map[name := "0"], name, true)
    ensures !EnvBool(map[name := "no"], name, true)
    ensures EnvBool(map[], name, true) && !EnvBool(map[], name, false)
  {
    assert ToLower("TRUE") == "true";
    assert ToLower("On") == "on";
    assert ToLower("0") == "0";
    assert ToLower("no") == "no";
  }

  /** `mail.dryRun`: either of the two dry-run variables is true (each defaulting to false). */
  function MailDryRun(env: Env): (r: bool)
    ensures r <==> EnvBool(env, "MAILER_DRY_RUN", false) || EnvBool(env, "EMAIL_DRY_RUN", false)
    ensures "MAILER_DRY_RUN" !in env && "EMAIL_DRY_RUN" !in env ==> !r
  {
    EnvBool(env, "MAILER_DRY_RUN", false) || EnvBool(env, "EMAIL_DRY_RUN", false)
  }

  /** `mail.driver`: `MAILER_DRIVER`, or `smtp` when it is unset or empty. */
  function MailDriver(env: Env): (r: string)
    ensures "MAILER_DRIVER" in env && env["MAILER_DRIVER"] != "" ==> r == env["MAILER_DRIVER"]
    ensures !("MAILER_DRIVER" in env && env["MAILER_DRIVER"] != "") ==> r == "smtp"
    ensures r != ""
  {
    if "MAILER_DRIVER" in env && env["MAILER_DRIVER"] != "" then env["MAILER_DRIVER"] else "smtp"
  }

  datatype MailAction = SkipDryRun | SendWithTransport

  /** What `mailer.sendMail` does: return early (dry run, or the `log` driver), or build an SMTP
      transport and send. */
  function SendMailAction(env: Env): (a: MailAction)
    ensures MailDryRun(env) ==> a == SkipDryRun
    ensures a == SendWithTransport <==> !MailDryRun(env) && MailDriver(env) != "log"
  {
    if MailDryRun(env) || MailDriver(env) == "log" then SkipDryRun else SendWithTransport
  }

  /** With neither flag nor driver set, mail is sent. */
  lemma DefaultSendsMail()
    ensures SendMailAction(map[]) == SendWithTransport
  {
  }
}
