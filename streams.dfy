/**
 * The concrete MoneyBird streams. Each declares the replication key
 * `updated_at`, so each request it makes asks for ascending order on that
 * field.
 */
module Streams {
  import opened Wrappers
  import opened Client

  const UpdatedAt := "updated_at"

  datatype StreamKind =
    | Contacts
    | LedgerAccounts
    | Receipts
    | PurchaseInvoices
    | SalesInvoices
    | ExternalSalesInvoices
  {
    /** The replication key the stream class declares. */
    function ReplicationKey(): Option<string>
    {
      match this
      case Contacts => Some(UpdatedAt)
      case LedgerAccounts => Some(UpdatedAt)
      case Receipts => Some(UpdatedAt)
      case PurchaseInvoices => Some(UpdatedAt)
      case SalesInvoices => Some(UpdatedAt)
      case ExternalSalesInvoices => Some(UpdatedAt)
    }
  }

  /**
   * `get_url_params` as a concrete stream runs it: every stream sorts
   * ascending by `updated_at`, and adds the page token when it is truthy.
   */
  method StreamUrlParams(stream: StreamKind, nextPageToken: Option<string>)
    returns (params: map<string, string>)
    ensures SortKey in params && params[SortKey] == Ascending
    ensures OrderByKey in params && params[OrderByKey] == UpdatedAt
    ensures PageKey in params <==> Truthy(nextPageToken)
    ensures PageKey in params ==> params[PageKey] == nextPageToken.value
    ensures params.Keys <= {PageKey, SortKey, OrderByKey}
  {
    params := GetUrlParams(nextPageToken, stream.ReplicationKey());
  }
}
