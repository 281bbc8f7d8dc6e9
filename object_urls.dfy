/**
 * The browser's object-URL registry behind `URL.createObjectURL` and
 * `URL.revokeObjectURL`, as the components use it (src/components/file-upload.tsx:35,
 * 110; src/components/job-drawer.tsx:128-132). The browser's own scheme for naming
 * handles is not visible; here handle `n` is the string "blob:" followed by `n` in
 * decimal, so every handle starts with "blob:" and no two are equal. The set of
 * handles not yet released is ghost bookkeeping.
 */
module ObjectUrls {
  import opened Text

  /** The `n`-th handle the registry hands out. */
  function BlobUrl(n: nat): (url: string)
    ensures StartsWith(url, "blob:")
    ensures |url| > 5
  {
    "blob:" + NatToString(n)
  }

  /** Distinct allocations give distinct handles. */
  lemma BlobUrlInjective(m: nat, n: nat)
    requires BlobUrl(m) == BlobUrl(n)
    ensures m == n
  {
    assert NatToString(m) == BlobUrl(m)[5..];
    assert NatToString(n) == BlobUrl(n)[5..];
    NatToStringInjective(m, n);
  }

  class UrlRegistry {
    /** How many handles have been created so far. */
    var minted: nat
    /** The handles created and not yet revoked. */
    ghost var live: set<string>

    /** No handle the registry has yet to hand out is live already. */
    ghost predicate Valid()
      reads this
    {
      forall k: nat :: minted <= k ==> BlobUrl(k) !in live
    }

    constructor ()
      ensures Valid() && live == {} && minted == 0
    {
      minted := 0;
      live := {};
    }

    /** `URL.createObjectURL`: a handle that was not live before, and is now. */
    method Create() returns (url: string)
      requires Valid()
      modifies this
      ensures Valid()
      ensures url == BlobUrl(old(minted)) && minted == old(minted) + 1
      ensures url !in old(live) && live == old(live) + {url}
    {
      url := BlobUrl(minted);
      live := live + {url};
      minted := minted + 1;
      forall k: nat | minted <= k ensures BlobUrl(k) !in live {
        if BlobUrl(k) == url {
          BlobUrlInjective(k, old(minted));
        }
      }
    }

    /** `URL.revokeObjectURL`: the handle is no longer live; revoking twice is harmless. */
    method Revoke(url: string)
      requires Valid()
      modifies this
      ensures Valid()
      ensures live == old(live) - {url} && minted == old(minted)
    {
      live := live - {url};
    }
  }
}
