/** The store record kept in the `stores` table, with the status,
    error-message and updated-at columns the handlers write. */
module Models {
  import opened Common

  // Lifecycle statuses, spelled as the handlers and the sweep compare them.
  const Provisioning := "Provisioning"
  const Ready := "Ready"
  const Failed := "Failed"
  const Deleting := "Deleting"
  const DeletionFailed := "DeletionFailed"

  // The two application templates.
  const WooCommerce := "woocommerce"
  const Medusa := "medusa"

  predicate KnownType(storeType: string)
  {
    storeType == WooCommerce || storeType == Medusa
  }

  /** One row of the store table. Timestamps are milliseconds. */
  datatype Store = Store(
    id: string,
    name: string,
    storeType: string,
    status: string,
    url: string,
    namespace: string,
    createdAt: int,
    updatedAt: int,
    errorMessage: Option<string>)

  /** `DOMAIN_SUFFIX`, defaulting to "localhost" when unset or empty. */
  function DomainSuffix(env: string): string
  {
    if env == "" then "localhost" else env
  }

  /** The external host name of a store's namespace. */
  function Host(namespace: string, suffixEnv: string): string
  {
    namespace + "." + DomainSuffix(suffixEnv)
  }
}
