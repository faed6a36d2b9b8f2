/** `fix_url` (backend/main.py): presigned URLs come back from the object
    store addressed to the store's cluster-internal name `minio:9000`; they
    are rewritten to go through the external proxy on port 8080 under the
    path `/minio-api`. */
module UrlRewrite {
  import opened PyStr

  /** The internal host name the code looks for. */
  const InternalHost: string := "minio:9000"

  /** The internal base URL the code replaces. */
  const InternalBase: string := "http://minio:9000"

  /** The IP part of the external endpoint: everything before its first ':'. */
  function ExternalIp(external: string): (ip: string)
    ensures ':' !in ip
    ensures StartsWith(external, ip)
    ensures ip == external || external[|ip|] == ':'
  {
    BeforeFirst(external, ':')
  }

  /** The proxied base that takes the place of `InternalBase`. */
  function ProxyBase(ip: string): string {
    "http://" + ip + ":8080/minio-api"
  }

  /** `fix_url(url)`, with `EXTERNAL_ENDPOINT` passed in as `external`. */
  function FixUrl(url: string, external: string): (r: string)
    ensures external == "" ==> r == url
    ensures !Contains(url, InternalHost) ==> r == url
    ensures external != "" ==> !Contains(r, InternalBase)
  {
    if external != "" && Contains(url, InternalHost) then
      ProxyRewriteRemovesInternal(url, ExternalIp(external));
      Replace(url, InternalBase, ProxyBase(ExternalIp(external)))
    else
      NoHostNoBase(url);
      url
  }

  /** Every occurrence of the internal base URL is an occurrence of the
      internal host, seven characters further on. */
  lemma NoHostNoBase(url: string)
    ensures Contains(url, InternalBase) ==> Contains(url, InternalHost)
  {
    if Contains(url, InternalBase) {
      var i :| 0 <= i <= |url| && StartsWith(url[i..], InternalBase);
      assert url[i + 7..][..10] == url[i..][..17][7..];
      ContainsAt(url, InternalHost, i + 7);
    }
  }

  /** In the proxied base, a ':' is never followed by '9' (the internal base
      has ":9" at offset 12), given that the IP has no ':'. */
  lemma ProxyColons(ip: string, j: int)
    requires ':' !in ip
    requires 0 <= j < |ProxyBase(ip)| - 1
    ensures ProxyBase(ip)[j] == ':' ==> ProxyBase(ip)[j + 1] != '9'
  {
  }

  /** The proxied base never contains the internal base, and rewriting with
      it satisfies the conditions of `ReplaceRemovesAll`. */
  lemma ProxyIsClean(ip: string)
    requires ':' !in ip
    ensures CleanReplacement(InternalBase, ProxyBase(ip))
  {
    var pat, rep := InternalBase, ProxyBase(ip);
    assert rep[0] == 'h';
    forall i | 0 <= i <= |rep| ensures !StartsWith(rep[i..], pat) {
      if i + 17 <= |rep| {
        if rep[i + 12] == ':' {
          ProxyColons(ip, i + 12);
          assert rep[i..][..17][13] != pat[13];
        } else {
          assert rep[i..][..17][12] != pat[12];
        }
      }
    }
    assert rep[|rep| - 15..] == ":8080/minio-api";
    assert rep[|rep| - 2] == 'p' && rep[|rep| - 1] == 'i';
    forall i | 0 <= i < |rep| && |rep| - i < |pat| ensures rep[i..] != pat[..|rep| - i] {
      var m := |rep| - i;
      if m == 1 {
        assert rep[i..][0] == 'i' != pat[0];
      } else {
        assert rep[i..][m - 2] == 'p' && rep[i..][m - 1] == 'i';
        assert !(pat[m - 2] == 'p' && pat[m - 1] == 'i');
      }
    }
  }

  /** Rewriting with the proxied base leaves no internal base behind. */
  lemma ProxyRewriteRemovesInternal(url: string, ip: string)
    requires ':' !in ip
    ensures !Contains(Replace(url, InternalBase, ProxyBase(ip)), InternalBase)
  {
    ProxyIsClean(ip);
    ReplaceRemovesAll(url, InternalBase, ProxyBase(ip));
  }

  /** Applying `fix_url` twice is the same as applying it once. */
  lemma FixUrlIdempotent(url: string, external: string)
    ensures FixUrl(FixUrl(url, external), external) == FixUrl(url, external)
  {
    var r := FixUrl(url, external);
    if external != "" {
      ReplaceAbsent(r, InternalBase, ProxyBase(ExternalIp(external)));
    }
  }

  /** A URL that carries the internal host but not as `http://minio:9000`
      is returned as it is. */
  lemma FixUrlHostWithoutScheme(url: string, external: string)
    requires Contains(url, InternalHost) && !Contains(url, InternalBase)
    ensures FixUrl(url, external) == url
  {
    ReplaceAbsent(url, InternalBase, ProxyBase(ExternalIp(external)));
  }

  /** A presigned URL as the store hands it out, `http://minio:9000` followed
      by a path and query with no further internal base in it, comes back
      as the proxied base followed by the same path and query. */
  lemma {:induction false} FixUrlPresigned(rest: string, external: string)
    requires external != ""
    requires !Contains(rest, InternalBase)
    ensures FixUrl(InternalBase + rest, external) == ProxyBase(ExternalIp(external)) + rest
  {
    var url := InternalBase + rest;
    assert url[..17] == InternalBase;
    assert url[7..][..10] == url[..17][7..];
    ContainsAt(url, InternalHost, 7);
    ReplaceLeading(InternalBase, rest, ProxyBase(ExternalIp(external)));
    ReplaceAbsent(rest, InternalBase, ProxyBase(ExternalIp(external)));
  }

  /** A URL holding the internal base once, anywhere in it, comes back with
      that occurrence swapped for the proxied base and the text before and
      after it unchanged. */
  lemma FixUrlOneBase(before: string, after: string, external: string)
    requires external != ""
    requires forall i :: 0 <= i < |before| ==> !StartsWith((before + InternalBase + after)[i..], InternalBase)
    requires !Contains(after, InternalBase)
    ensures FixUrl(before + InternalBase + after, external) == before + ProxyBase(ExternalIp(external)) + after
  {
    var url, proxy := before + InternalBase + after, ProxyBase(ExternalIp(external));
    assert url[|before|..][..17] == InternalBase;
    ContainsAt(url, InternalBase, |before|);
    NoHostNoBase(url);
    ReplaceLeftmost(before, InternalBase, after, proxy);
    ReplaceAbsent(after, InternalBase, proxy);
  }
}
