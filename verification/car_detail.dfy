/** The car detail page (`CarDetailPage`): the image path the page loads
    from, the Preview button and the Book Now button's login gate. */
module CarDetail {
  import opened Wrappers
  import opened Text
  import opened Users
  import opened ImagePaths

  /** What the Preview button does: open the preview on a resource path,
      or report that the image did not load, or that the preview page is
      missing. */
  datatype PreviewAction = ShowPreview(path: Option<string>) | ImageNotLoaded | PreviewMissing

  /** What Book Now does. */
  datatype BookAction = ToLogin | ToCheckout | CheckoutMissing

  /** The Preview button: offered only when the card image loaded and the
      preview page exists; the preview gets the stored path normalised the
      same way as the page's own image, as written (`substring(3)`). */
  function Preview(imageLoaded: bool, previewPresent: bool, imagePath: Option<string>): (r: PreviewAction)
    ensures r.ShowPreview? <==> imageLoaded && previewPresent
    ensures r == ImageNotLoaded <==> !imageLoaded
    ensures r.ShowPreview? ==> (r.path.None? <==> imagePath.None?)
    ensures r.ShowPreview? && r.path.Some? ==> StartsWith(r.path.value, "/")
  {
    if imageLoaded && previewPresent then ShowPreview(ResourcePathAsWritten(imagePath))
    else if !imageLoaded then ImageNotLoaded
    else PreviewMissing
  }

  /** The preview opens on the very path the page loaded its image from; as
      written, a stored path `src/Images/x` keeps the slash after `src` and
      opens `//Images/x`. */
  lemma PreviewUsesPagePath(previewPresent: bool, p: string)
    requires previewPresent
    ensures Preview(true, true, Some(p)) == ShowPreview(ResourcePathAsWritten(Some(p)))
    ensures StartsWith(p, StorePrefix) ==>
      Preview(true, previewPresent, Some(p)) == ShowPreview(Some("/" + p[3..]))
    ensures StartsWith(p, StorePrefix) ==> StartsWith(p[3..], ClassPathPrefix)
  {
    if StartsWith(p, StorePrefix) {
      SourceDirNotAbsolute(p);
      assert p[..|SourceDir|] == p[..|StorePrefix|][..|SourceDir|];
      assert p[3..][..|ClassPathPrefix|] == p[..|StorePrefix|][3..];
    }
  }

  /** The Preview button with the corrected normalisation. */
  function PreviewCorrected(imageLoaded: bool, previewPresent: bool, imagePath: Option<string>): (r: PreviewAction)
    ensures r.ShowPreview? <==> imageLoaded && previewPresent
    ensures r == ImageNotLoaded <==> !imageLoaded
    ensures r.ShowPreview? ==> (r.path.None? <==> imagePath.None?)
    ensures r.ShowPreview? && r.path.Some? ==> StartsWith(r.path.value, "/")
  {
    if imageLoaded && previewPresent then ShowPreview(ResourcePath(imagePath))
    else if !imageLoaded then ImageNotLoaded
    else PreviewMissing
  }

  /** With the correction, a stored path opens its `/Images/` resource, the
      same path the client's receive-time rewrite gives; every path not
      under `src/` previews exactly as written. */
  lemma PreviewCorrectedOpensResource(p: string)
    ensures StartsWith(p, StorePrefix) ==>
      PreviewCorrected(true, true, Some(p)) == ShowPreview(Some(ClassPathPrefix + p[|StorePrefix|..]))
    ensures StartsWith(p, "/") || !StartsWith(p, SourceDir) ==>
      PreviewCorrected(true, true, Some(p)) == Preview(true, true, Some(p))
  {
    if StartsWith(p, StorePrefix) {
      ResourcePathOfStored(p);
    }
    if StartsWith(p, "/") || !StartsWith(p, SourceDir) {
      ResourcePathAgreement(Some(p));
    }
  }

  /** The Book Now button: without a logged-in user it goes to the login
      page; with one it goes to checkout when that page exists. */
  function BookNow(loggedIn: Option<User>, checkoutPresent: bool): (r: BookAction)
    ensures r == ToLogin <==> loggedIn.None?
    ensures r == ToCheckout <==> loggedIn.Some? && checkoutPresent
    ensures r == CheckoutMissing <==> loggedIn.Some? && !checkoutPresent
  {
    if loggedIn.None? then ToLogin
    else if checkoutPresent then ToCheckout
    else CheckoutMissing
  }

  /** Checkout is reached only after a sign-in has put a user in the
      session; a failed sign-in on a fresh session never gets there. */
  lemma CheckoutNeedsSignIn(s: Session, users: seq<User>, username: string, password: string, adminSelected: bool)
    ensures var after := SessionAfter(s, SignIn(users, username, password, adminSelected));
      BookNow(after.user, true) == ToCheckout <==>
        (SignIn(users, username, password, adminSelected).SignedIn? || s.user.Some?)
    ensures s.user.None? && !SignIn(users, username, password, adminSelected).SignedIn? ==>
      BookNow(SessionAfter(s, SignIn(users, username, password, adminSelected)).user, true) == ToLogin
  {
  }
}
