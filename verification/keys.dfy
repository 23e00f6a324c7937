/** Work-queue keys: "namespace/name", or "name" for cluster-scoped objects,
    split the way cache.SplitMetaNamespaceKey of client-go splits them. */
module Keys {
  import opened Api

  function IndexOf(s: string, c: char): (i: nat)
    requires c in s
    ensures i < |s| && s[i] == c && c !in s[..i]
  {
    if s[0] == c then 0 else 1 + IndexOf(s[1..], c)
  }

  /** strings.Split(s, sep) for a one-character separator. */
  function SplitOn(s: string, sep: char): (parts: seq<string>)
    ensures |parts| >= 1
    ensures forall k :: 0 <= k < |parts| ==> sep !in parts[k]
    ensures JoinWith(parts, sep) == s
    decreases |s|
  {
    if sep !in s then [s]
    else
      var i := IndexOf(s, sep);
      var rest := SplitOn(s[i + 1..], sep);
      assert s == s[..i] + [sep] + s[i + 1..];
      [s[..i]] + rest
  }

  /** strings.Join(parts, sep). */
  function JoinWith(parts: seq<string>, sep: char): string
    requires |parts| >= 1
  {
    if |parts| == 1 then parts[0] else parts[0] + [sep] + JoinWith(parts[1..], sep)
  }

  /** One part is a bare name in the empty namespace, two parts are namespace
      and name, anything else is a malformed key. */
  function SplitMetaNamespaceKey(key: string): (r: Option<(string, string)>)
    ensures '/' !in key ==> r == Some(("", key))
    ensures r.Some? ==> '/' !in r.value.1
  {
    var parts := SplitOn(key, '/');
    if |parts| == 1 then Some(("", parts[0]))
    else if |parts| == 2 then Some((parts[0], parts[1]))
    else None
  }

  /** The key the work queue builds for an object (cache.MetaNamespaceKeyFunc). */
  function MetaNamespaceKey(namespace: string, name: string): string {
    if namespace == "" then name else namespace + "/" + name
  }

  /** A key built from a namespace and a name splits back into them. */
  lemma KeyRoundTrip(namespace: string, name: string)
    requires '/' !in namespace && '/' !in name
    ensures SplitMetaNamespaceKey(MetaNamespaceKey(namespace, name)) == Some((namespace, name))
  {
    if namespace != "" {
      var key := namespace + "/" + name;
      assert key[|namespace|] == '/';
      assert key[..|namespace|] == namespace;
      assert key[|namespace| + 1..] == name;
      assert IndexOf(key, '/') == |namespace|;
    }
  }

  /** An accepted key is exactly its parts around at most one slash, and
      neither part holds a slash. */
  lemma SplitKeyParts(key: string)
    requires SplitMetaNamespaceKey(key).Some?
    ensures var (namespace, name) := SplitMetaNamespaceKey(key).value;
      && '/' !in namespace && '/' !in name
      && (key == name || key == namespace + "/" + name)
  {
  }
}
