/** The names under which a summary counts files. */
module SummaryMeaning {
  import opened Wrappers
  import opened ReportModel
  import opened CompletenessReport

  predicate RoleNamed(role: FileRole, name: string) {
    match role
    case Source => name == "source"
    case Test => name == "test"
    case Docs => name == "docs"
    case Config => name == "config"
    case ExcludedGenerated => name == "excluded_generated"
    case ExcludedBinary => name == "excluded_binary"
    case ExcludedVendor => name == "excluded_vendor"
    case ExcludedData => name == "excluded_data"
    case ExcludedAsset => name == "excluded_asset"
  }

  predicate StatusNamed(status: TerminalStatus, name: string) {
    match status
    case Processed(_) => name == "processed"
    case MissingServerStatus(_) => name == "missing_server"
    case UnsupportedExtension(_) => name == "unsupported_extension"
    case NeverProcessed(_) => name == "never_processed"
    case Crashed(_) => name == "crashed"
    case TimedOut(_) => name == "timed_out"
    case Partial(_) => name == "partial"
    case Degraded(_) => name == "degraded"
    case Cancelled(_) => name == "cancelled"
    case Stale(_) => name == "stale"
  }

  /** What follows the last dot of a path, unless a slash comes after that dot. */
  predicate HasSuffix(path: string, suffix: string) {
    && '.' !in suffix && '/' !in suffix
    && |suffix| < |path| && path[|path| - |suffix|..] == suffix && path[|path| - |suffix| - 1] == '.'
  }

  /** The same text with its ASCII capitals made small. */
  predicate Lowered(text: string, lower: string) {
    && |lower| == |text|
    && forall i | 0 <= i < |text| ::
         lower[i] as int == if 'A' <= text[i] <= 'Z' then text[i] as int + 32 else text[i] as int
  }

  ghost predicate ExtensionNamed(path: string, name: string) {
    && (forall suffix | HasSuffix(path, suffix) :: Lowered(suffix, name))
    && ((forall suffix :: !HasSuffix(path, suffix)) ==> name == "<none>")
  }

  lemma {:induction false} ExtensionMeans(s: string)
    ensures ExtensionOf(s).Some? ==>
              var e := ExtensionOf(s).value;
              '.' !in e && |e| < |s| && s[|s| - |e|..] == e && s[|s| - |e| - 1] == '.'
  {
    if '.' in s {
      if '.' in s[1..] {
        ExtensionMeans(s[1..]);
        var e := ExtensionOf(s[1..]).value;
        assert s[|s| - |e|..] == s[1..][|s| - 1 - |e|..];
      } else {
        assert s[0] == '.';
      }
    }
  }

  /** A part without dots behind a dot begins after the last dot. */
  lemma BehindLastDot(s: string, a: string)
    requires '.' !in a && |a| < |s| && s[|s| - |a|..] == a && s[|s| - |a| - 1] == '.'
    ensures forall k | |s| - |a| <= k < |s| :: s[k] != '.'
  {
    forall k | |s| - |a| <= k < |s| ensures s[k] != '.' {
      assert s[k] == a[k - |s| + |a|] && a[k - |s| + |a|] in a;
    }
  }

  lemma OneSuffix(s: string, a: string, b: string)
    requires '.' !in a && |a| < |s| && s[|s| - |a|..] == a && s[|s| - |a| - 1] == '.'
    requires '.' !in b && |b| < |s| && s[|s| - |b|..] == b && s[|s| - |b| - 1] == '.'
    ensures a == b
  {
    BehindLastDot(s, a);
    BehindLastDot(s, b);
    assert |a| == |b|;
  }

  lemma ExtensionKeyMeans(path: string)
    ensures ExtensionNamed(path, ExtensionKey(path))
  {
    ExtensionMeans(path);
    forall suffix | HasSuffix(path, suffix) ensures ExtensionOf(path) == Some(suffix) {
      assert path[|path| - |suffix| - 1] in path;
      OneSuffix(path, suffix, ExtensionOf(path).value);
    }
    if ExtensionOf(path).Some? && '/' !in ExtensionOf(path).value {
      assert HasSuffix(path, ExtensionOf(path).value);
    }
  }

  /** Each file is counted under the name of its role, of its status and of its extension in small
      letters. */
  lemma KeysMean(file: FileRecord)
    ensures RoleNamed(file.role, RoleKey(file))
    ensures StatusNamed(file.terminalStatus, StatusKey(file))
    ensures ExtensionNamed(file.path, PathKey(file))
  {
    ExtensionKeyMeans(file.path);
  }
}
